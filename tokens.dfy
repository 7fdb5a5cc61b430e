/** The `Tokens` cursor of docopt.cpp: a list of tokens, the index of the next
    one, and whether the tokens come from argv (which allows option prefixes)
    or from the usage pattern.

    The functions at the top of the module describe the cursor on values (a
    token list and an index); the class is the C++ object, whose `pop`
    advances the index in place.
 */
module TokenStream {
  import opened Errors
  import opened DocoptUtil

  /** A stand-in for the message of the `std::out_of_range` that `std::vector::at` throws: libstdc++'s message starts with this text and then gives the index and the size. Nothing reads it. */
  const AtMessage := "vector::_M_range_check"

  /** `current()` at index `i`: the token there, or "" past the end. */
  function CurrentAt(tokens: seq<string>, i: nat): (r: string)
    ensures i < |tokens| ==> r == tokens[i]
    ensures i >= |tokens| ==> r == ""
  {
    if i < |tokens| then tokens[i] else ""
  }

  /** `the_rest()` at index `i`: the remaining tokens joined by single spaces. */
  function RestAt(tokens: seq<string>, i: nat): (r: string)
    ensures i < |tokens| ==> r == Joined(tokens[i..], " ")
    ensures i >= |tokens| ==> r == ""
  {
    if i < |tokens| then Joined(tokens[i..], " ") else ""
  }

  /** `pop()` at index `i`: `fTokens.at(fIndex++)`. */
  function PopAt(tokens: seq<string>, i: nat): (r: Result<string>)
    ensures r.Ok? <==> i < |tokens|
    ensures r.Ok? ==> r.value == tokens[i]
  {
    if i < |tokens| then Ok(tokens[i]) else Err(OutOfRange(AtMessage))
  }

  /** The rest of the tokens, split again at whitespace, is the remaining
      tokens whenever none of them is empty or holds whitespace. */
  lemma RestAtSplits(tokens: seq<string>, i: nat)
    requires i <= |tokens|
    requires forall k :: i <= k < |tokens| ==> tokens[k] != [] && NoneIn(tokens[k], AnySpace)
    ensures Words(RestAt(tokens, i), AnySpace) == tokens[i..]
  {
    if i < |tokens| {
      assert ' ' in AnySpace;
      WordsOfJoined(tokens[i..], ' ', AnySpace);
    } else {
      assert Words("", AnySpace) == [];
    }
  }

  class Tokens {
    var tokens: seq<string>
    var index: nat
    const isParsingArgv: bool

    /** `Tokens(tokens, isParsingArgv)`: the cursor at the first token. */
    constructor (tokens: seq<string>, isParsingArgv: bool)
      ensures this.tokens == tokens && index == 0 && this.isParsingArgv == isParsingArgv
    {
      this.tokens := tokens;
      index := 0;
      this.isParsingArgv := isParsingArgv;
    }

    /** `explicit operator bool`: some token is left. */
    predicate HasMore(): (r: bool)
      reads this
      ensures r <==> index < |tokens|
    {
      index < |tokens|
    }

    function Current(): (r: string)
      reads this
      ensures HasMore() ==> r == tokens[index]
      ensures !HasMore() ==> r == ""
    {
      CurrentAt(tokens, index)
    }

    function TheRest(): (r: string)
      reads this
      ensures !HasMore() ==> r == ""
      ensures HasMore() ==> r == Joined(tokens[index..], " ")
    {
      RestAt(tokens, index)
    }

    /** `pop()`: the current token, with the index advanced by one; past the
        end the index is advanced all the same and `at` throws. */
    method Pop() returns (r: Result<string>)
      modifies this
      ensures tokens == old(tokens) && index == old(index) + 1
      ensures r == PopAt(tokens, old(index))
    {
      var i := index;
      index := index + 1;
      if i < |tokens| {
        return Ok(tokens[i]);
      }
      return Err(OutOfRange(AtMessage));
    }
  }
}
