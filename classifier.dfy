/**
 * The classification of a device reply done by display_response: an ordered,
 * exact, case-sensitive prefix match where the first matching prefix wins.
 */
module Classifier {
  import opened CStrings

  const DivZeroPrefix: seq<char> := "ERROR_DIV_0"
  const InvalidInputPrefix: seq<char> := "ERROR_INVALID_INPUT"
  const BufferFullPrefix: seq<char> := "ERROR_BUFFER_FULL"
  /** The generic error marker: display_response compares only the first 5 characters. */
  const ErrorPrefix: seq<char> := "ERROR"

  lemma PrefixesHaveNoNul()
    ensures NoNul(DivZeroPrefix) && NoNul(InvalidInputPrefix) && NoNul(BufferFullPrefix) && NoNul(ErrorPrefix)
  {
    assert NoNul(DivZeroPrefix) by {
      forall i | 0 <= i < |DivZeroPrefix| ensures DivZeroPrefix[i] != NUL {
      }
    }
    assert NoNul(InvalidInputPrefix) by {
      forall i | 0 <= i < |InvalidInputPrefix| ensures InvalidInputPrefix[i] != NUL {
      }
    }
    assert NoNul(BufferFullPrefix) by {
      forall i | 0 <= i < |BufferFullPrefix| ensures BufferFullPrefix[i] != NUL {
      }
    }
    assert NoNul(ErrorPrefix) by {
      forall i | 0 <= i < |ErrorPrefix| ensures ErrorPrefix[i] != NUL {
      }
    }
  }

  /** What display_response reports for a reply. */
  datatype Outcome =
    | DivisionByZero
    | InvalidInput       // also shows the help text again
    | BufferFull
    | UnknownError(raw: seq<char>)
    | Success(raw: seq<char>)

  /**
   * The reply is tested with strncmp against each prefix in turn; the
   * contract states the same decision as prefix tests on the string value.
   */
  function Classify(response: seq<char>): (r: Outcome)
    ensures var s := CString(response);
      && (r == DivisionByZero <==> DivZeroPrefix <= s)
      && (r == InvalidInput <==> !(DivZeroPrefix <= s) && InvalidInputPrefix <= s)
      && (r == BufferFull <==>
            !(DivZeroPrefix <= s) && !(InvalidInputPrefix <= s) && BufferFullPrefix <= s)
      && (r.UnknownError? <==>
            !(DivZeroPrefix <= s) && !(InvalidInputPrefix <= s) && !(BufferFullPrefix <= s)
            && ErrorPrefix <= s)
      && (r.Success? <==> !(ErrorPrefix <= s))
      && (r.UnknownError? || r.Success? ==> r.raw == response)
  {
    PrefixesHaveNoNul();
    StrNCmpZeroIsPrefix(response, DivZeroPrefix);
    StrNCmpZeroIsPrefix(response, InvalidInputPrefix);
    StrNCmpZeroIsPrefix(response, BufferFullPrefix);
    StrNCmpZeroIsPrefix(response, ErrorPrefix);
    SpecificPrefixesAreErrors(CString(response));
    if StrNCmpZero(response, DivZeroPrefix, |DivZeroPrefix|) then DivisionByZero
    else if StrNCmpZero(response, InvalidInputPrefix, |InvalidInputPrefix|) then InvalidInput
    else if StrNCmpZero(response, BufferFullPrefix, |BufferFullPrefix|) then BufferFull
    else if StrNCmpZero(response, ErrorPrefix, 5) then UnknownError(response)
    else Success(response)
  }

  /** Every specific prefix begins with the generic one, which is why it must be tested last. */
  lemma SpecificPrefixesAreErrors(s: seq<char>)
    ensures DivZeroPrefix <= s ==> ErrorPrefix <= s
    ensures InvalidInputPrefix <= s ==> ErrorPrefix <= s
    ensures BufferFullPrefix <= s ==> ErrorPrefix <= s
  {
    if DivZeroPrefix <= s {
      assert s[..5] == DivZeroPrefix[..5];
    }
    if InvalidInputPrefix <= s {
      assert s[..5] == InvalidInputPrefix[..5];
    }
    if BufferFullPrefix <= s {
      assert s[..5] == BufferFullPrefix[..5];
    }
  }

  /**
   * No reply carries two specific prefixes (they differ at index 6), so the
   * order among the three specific tests does not change any outcome.
   */
  lemma SpecificPrefixesExclusive(s: seq<char>)
    ensures !(DivZeroPrefix <= s && InvalidInputPrefix <= s)
    ensures !(DivZeroPrefix <= s && BufferFullPrefix <= s)
    ensures !(InvalidInputPrefix <= s && BufferFullPrefix <= s)
  {
    if DivZeroPrefix <= s {
      assert s[6] == 'D';
    }
    if InvalidInputPrefix <= s {
      assert s[6] == 'I';
    }
  }

  /** "ERROR_DIV_0" decides the outcome, whatever follows it. */
  lemma DivZeroPrefixWins(suffix: seq<char>)
    ensures Classify(DivZeroPrefix + suffix) == DivisionByZero
  {
    PrefixesHaveNoNul();
    CStringAppend(DivZeroPrefix, suffix);
  }

  /** "ERROR_INVALID_INPUT" decides the outcome, whatever follows it. */
  lemma InvalidInputPrefixWins(suffix: seq<char>)
    ensures Classify(InvalidInputPrefix + suffix) == InvalidInput
  {
    PrefixesHaveNoNul();
    CStringAppend(InvalidInputPrefix, suffix);
    SpecificPrefixesExclusive(InvalidInputPrefix + CString(suffix));
  }

  /** "ERROR_BUFFER_FULL" decides the outcome, whatever follows it. */
  lemma BufferFullPrefixWins(suffix: seq<char>)
    ensures Classify(BufferFullPrefix + suffix) == BufferFull
  {
    PrefixesHaveNoNul();
    CStringAppend(BufferFullPrefix, suffix);
    SpecificPrefixesExclusive(BufferFullPrefix + CString(suffix));
  }

  /** A reply that starts with "ERROR" but with no specific prefix is an unknown error, kept verbatim. */
  lemma GenericErrorKeepsReply(response: seq<char>)
    requires ErrorPrefix <= CString(response)
    requires !(DivZeroPrefix <= CString(response))
    requires !(InvalidInputPrefix <= CString(response))
    requires !(BufferFullPrefix <= CString(response))
    ensures Classify(response) == UnknownError(response)
  {
  }

  /** Any reply whose string does not start with "ERROR", in particular one shorter than five characters, is a result. */
  lemma OtherRepliesAreResults(response: seq<char>)
    ensures !(ErrorPrefix <= CString(response)) <==> Classify(response) == Success(response)
    ensures |CString(response)| < |ErrorPrefix| ==> Classify(response) == Success(response)
  {
  }

  /** A specific prefix followed by more text. */
  lemma DivZeroExample()
    ensures Classify("ERROR_DIV_0 foo") == DivisionByZero
  {
    DivZeroPrefixWins(" foo");
    assert DivZeroPrefix + " foo" == "ERROR_DIV_0 foo";
  }

  /** Only the generic marker matches: the reply comes back verbatim as an unknown error. */
  lemma UnknownErrorExample(weird: seq<char>)
    requires weird == "ERROR_WEIRD_THING"
    ensures Classify(weird) == UnknownError(weird)
  {
    CStringOfNoNul(weird);
    assert weird[..5] == ErrorPrefix;
    assert weird[6] != DivZeroPrefix[6] && weird[6] != InvalidInputPrefix[6] && weird[6] != BufferFullPrefix[6];
  }

  /** A reply without the marker is a result, unchanged. */
  lemma ResultExample(sum: seq<char>)
    requires sum == "4 + 5 = 9"
    ensures Classify(sum) == Success(sum)
  {
    CStringOfNoNul(sum);
    assert sum[0] != ErrorPrefix[0];
  }
}
