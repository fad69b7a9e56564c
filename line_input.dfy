/**
 * Reading one line of operator input the way get_user_input does: fgets
 * into a buffer of bufferSize chars, strip the newline if the whole line
 * fitted, otherwise discard the rest of the line and clear the buffer.
 */
module LineInput {
  import opened Wrappers
  import opened CStrings

  const NEWLINE: char := '\n'

  /**
   * The characters fgets(buf, max + 1, stdin) takes from the stream: up to
   * and including the first newline, but never more than max characters.
   */
  function FgetsChunk(s: seq<char>, max: nat): (c: seq<char>)
    ensures c <= s && |c| <= max
    ensures forall i :: 0 <= i < |c| - 1 ==> c[i] != NEWLINE
    ensures |c| == Min(max, |s|) || (c != [] && c[|c| - 1] == NEWLINE)
  {
    if max == 0 || s == [] then []
    else if s[0] == NEWLINE then [NEWLINE]
    else [s[0]] + FgetsChunk(s[1..], max - 1)
  }

  /**
   * The stream left by the discard loop `while ((c = getchar()) != '\n' && c != EOF);`:
   * everything up to and including the next newline is gone.
   */
  function DiscardLine(s: seq<char>): (r: seq<char>)
    ensures |r| <= |s| && r == s[|s| - |r|..]
    ensures NEWLINE !in s ==> r == []
    ensures NEWLINE in s ==> |r| < |s| && s[|s| - |r| - 1] == NEWLINE && NEWLINE !in s[..|s| - |r| - 1]
  {
    if s == [] then []
    else if s[0] == NEWLINE then s[1..]
    else
      var r := DiscardLine(s[1..]);
      assert NEWLINE in s ==> NEWLINE in s[1..];
      assert NEWLINE in s[1..] ==> s[1..][..|s| - 1 - |r| - 1] == s[1..|s| - |r| - 1];
      r
  }

  /** One getchar of the discard loop: it stops at a newline or at the end of input, and otherwise goes on. */
  lemma DiscardLineStep(s: seq<char>)
    ensures s == [] ==> DiscardLine(s) == []
    ensures s != [] && s[0] == NEWLINE ==> DiscardLine(s) == s[1..]
    ensures s != [] && s[0] != NEWLINE ==> DiscardLine(s) == DiscardLine(s[1..])
  {
  }

  /** What one call of get_user_input yields. */
  datatype LineRead =
    | EndOfInput                                               // fgets returned NULL
    | Line(text: seq<char>, rest: seq<char>, tooLong: bool)    // the buffer's string and the stream left

  /** get_user_input on stream s with a buffer of bufferSize chars. */
  function ReadUserLine(s: seq<char>, bufferSize: nat): (r: LineRead)
    requires bufferSize >= 2
    ensures r.EndOfInput? <==> s == []
    ensures r.Line? ==> |r.rest| < |s| && r.rest == s[|s| - |r.rest|..]
    ensures r.Line? && r.tooLong ==> r.text == []
    ensures r.Line? && !r.tooLong ==>
      && s == r.text + [NEWLINE] + r.rest
      && |r.text| <= bufferSize - 2
      && NoNul(r.text)
      && NEWLINE !in r.text
  {
    if s == [] then EndOfInput
    else
      var chunk := FgetsChunk(s, bufferSize - 1);
      var len := StrLen(chunk);
      if len > 0 && chunk[len - 1] == NEWLINE then
        assert len == |chunk|;
        var text := chunk[..len - 1];
        assert NoNul(text) by {
          forall i | 0 <= i < |text| ensures text[i] != NUL {
            assert text[i] == chunk[..len][i];
          }
        }
        assert NEWLINE !in text by {
          forall i | 0 <= i < |text| ensures text[i] != NEWLINE {
            assert text[i] == chunk[i];
          }
        }
        assert chunk == text + [NEWLINE];
        assert s == chunk + s[|chunk|..];
        Line(text, s[|chunk|..], false)
      else
        Line([], DiscardLine(s[|chunk|..]), true)
  }

  /**
   * The buffer fgets leaves behind (the chunk, then its NUL) decides which
   * branch get_user_input takes, and overwriting the newline with NUL
   * leaves exactly the line's text in it.
   */
  lemma FgetsBuffer(s: seq<char>, bufferSize: nat, buf: seq<char>)
    requires bufferSize >= 2 && s != [] && |buf| == bufferSize
    requires var chunk := FgetsChunk(s, bufferSize - 1);
      buf[..|chunk|] == chunk && buf[|chunk|] == NUL
    ensures var r := ReadUserLine(s, bufferSize);
      var chunk := FgetsChunk(s, bufferSize - 1);
      var len := StrLen(buf);
      && (!r.tooLong <==> len > 0 && buf[len - 1] == NEWLINE)
      && (!r.tooLong ==> CString(buf[len - 1 := NUL]) == r.text && r.rest == s[|chunk|..])
      && (r.tooLong ==> r.text == [] && r.rest == DiscardLine(s[|chunk|..]))
  {
    var chunk := FgetsChunk(s, bufferSize - 1);
    CStringTerminated(buf, |chunk|);
    assert buf[..|chunk|] == chunk;
    var len := StrLen(buf);
    if len > 0 && buf[len - 1] == NEWLINE {
      assert chunk[len - 1] == NEWLINE;
      assert len == |chunk|;
      var text := chunk[..len - 1];
      assert buf[..len - 1] == text;
      var after := buf[len - 1 := NUL];
      assert after[..len - 1] == text;
      CStringUpTo(after, len - 1);
    }
  }

  /** fgets stops right after the first newline when it comes early enough. */
  lemma {:induction false} FgetsTakesLine(line: seq<char>, rest: seq<char>, max: nat)
    requires NEWLINE !in line && |line| < max
    ensures FgetsChunk(line + [NEWLINE] + rest, max) == line + [NEWLINE]
    decreases |line|
  {
    if line != [] {
      assert (line + [NEWLINE] + rest)[1..] == line[1..] + [NEWLINE] + rest;
      FgetsTakesLine(line[1..], rest, max - 1);
      assert line == [line[0]] + line[1..];
    }
  }

  /** Without a newline among the first max characters, fgets takes exactly those. */
  lemma {:induction false} FgetsFillsBuffer(s: seq<char>, max: nat)
    requires NEWLINE !in s[..Min(max, |s|)]
    ensures FgetsChunk(s, max) == s[..Min(max, |s|)]
    decreases max
  {
    if max > 0 && s != [] {
      assert s[0] == s[..Min(max, |s|)][0];
      assert s[1..][..Min(max - 1, |s| - 1)] == s[1..Min(max, |s|)];
      FgetsFillsBuffer(s[1..], max - 1);
    }
  }

  /** The discard loop stops right after the first newline. */
  lemma {:induction false} DiscardThroughNewline(prefix: seq<char>, rest: seq<char>)
    requires NEWLINE !in prefix
    ensures DiscardLine(prefix + [NEWLINE] + rest) == rest
    decreases |prefix|
  {
    if prefix != [] {
      assert (prefix + [NEWLINE] + rest)[1..] == prefix[1..] + [NEWLINE] + rest;
      DiscardThroughNewline(prefix[1..], rest);
    }
  }

  /**
   * A line of at most bufferSize - 2 characters (no newline, no NUL in it)
   * is read back exactly, without its newline, and the stream continues
   * right after it.
   */
  lemma ReadsWholeLine(line: seq<char>, rest: seq<char>, bufferSize: nat)
    requires bufferSize >= 2
    requires NEWLINE !in line && NoNul(line) && |line| <= bufferSize - 2
    ensures ReadUserLine(line + [NEWLINE] + rest, bufferSize) == Line(line, rest, false)
  {
    var s := line + [NEWLINE] + rest;
    FgetsTakesLine(line, rest, bufferSize - 1);
    var chunk := line + [NEWLINE];
    assert FgetsChunk(s, bufferSize - 1) == chunk;
    assert chunk[..|line|] == line;
    assert NoNul(chunk[..|chunk|]) by {
      forall i | 0 <= i < |chunk| ensures chunk[..|chunk|][i] != NUL {
        if i < |line| {
          assert chunk[..|chunk|][i] == line[i];
        }
      }
    }
    StrLenUnique(chunk, |chunk|);
    var len := StrLen(chunk);
    assert len == |chunk| && len > 0 && chunk[len - 1] == NEWLINE;
    assert ReadUserLine(s, bufferSize) == Line(chunk[..len - 1], s[|chunk|..], false);
    assert s[|chunk|..] == rest;
  }

  /**
   * A line of bufferSize - 1 or more characters is rejected: the buffer is
   * cleared and the whole line, newline included, is consumed.
   */
  lemma OverlongLineDiscarded(line: seq<char>, rest: seq<char>, bufferSize: nat)
    requires bufferSize >= 2
    requires NEWLINE !in line && |line| >= bufferSize - 1
    ensures ReadUserLine(line + [NEWLINE] + rest, bufferSize) == Line([], rest, true)
  {
    var s := line + [NEWLINE] + rest;
    var max := bufferSize - 1;
    assert s[..Min(max, |s|)] == line[..max];
    FgetsFillsBuffer(s, max);
    var chunk := FgetsChunk(s, max);
    assert NEWLINE !in chunk;
    assert s[|chunk|..] == line[max..] + [NEWLINE] + rest;
    DiscardThroughNewline(line[max..], rest);
  }

  /**
   * A line that fits but holds a NUL is rejected as too long: strlen stops
   * at the NUL, so the character before it is not the newline, and the
   * discard loop then consumes the NEXT line of the stream.
   */
  lemma NulLineRejected(line: seq<char>, rest: seq<char>, bufferSize: nat)
    requires bufferSize >= 2
    requires NEWLINE !in line && !NoNul(line) && |line| <= bufferSize - 2
    ensures ReadUserLine(line + [NEWLINE] + rest, bufferSize) == Line([], DiscardLine(rest), true)
  {
    var s := line + [NEWLINE] + rest;
    FgetsTakesLine(line, rest, bufferSize - 1);
    var chunk := line + [NEWLINE];
    assert FgetsChunk(s, bufferSize - 1) == chunk;
    assert line[..|line|] == line;
    var len := StrLen(line);
    assert chunk[..len] == line[..len];
    StrLenUnique(chunk, len);
    assert !(len > 0 && chunk[len - 1] == NEWLINE) by {
      if len > 0 {
        assert chunk[len - 1] == line[len - 1];
      }
    }
    assert s[|chunk|..] == rest;
  }

  /** So the line after a NUL-holding line is dropped unread, and the next read starts after it. */
  lemma NulLineDropsNextLine(line: seq<char>, next: seq<char>, rest: seq<char>, bufferSize: nat)
    requires bufferSize >= 2
    requires NEWLINE !in line && !NoNul(line) && |line| <= bufferSize - 2 && NEWLINE !in next
    ensures ReadUserLine(line + [NEWLINE] + next + [NEWLINE] + rest, bufferSize) == Line([], rest, true)
  {
    var tail := next + [NEWLINE] + rest;
    assert line + [NEWLINE] + next + [NEWLINE] + rest == line + [NEWLINE] + tail;
    NulLineRejected(line, tail, bufferSize);
    DiscardThroughNewline(next, rest);
  }

  /** "a", NUL, "b" on one line takes the following line "12+5" with it. */
  lemma NulLineExample(s: seq<char>)
    requires s == "a\0b\n12+5\nrest"
    ensures ReadUserLine(s, 100) == Line([], "rest", true)
  {
    var line := "a\0b";
    assert line[1] == NUL;
    assert s == line + [NEWLINE] + "12+5" + [NEWLINE] + "rest";
    NulLineDropsNextLine(line, "12+5", "rest", 100);
  }

  /**
   * A last line that ends at end of input without a newline is treated as
   * too long, whatever its length: fgets returns it without a newline, so
   * get_user_input takes the overflow branch.
   */
  lemma UnterminatedLastLineRejected(line: seq<char>, bufferSize: nat)
    requires bufferSize >= 2
    requires line != [] && NEWLINE !in line
    ensures ReadUserLine(line, bufferSize) == Line([], [], true)
  {
    var max := bufferSize - 1;
    assert NEWLINE !in line[..Min(max, |line|)] by {
      forall i | 0 <= i < Min(max, |line|) ensures line[..Min(max, |line|)][i] != NEWLINE {
        assert line[..Min(max, |line|)][i] == line[i];
      }
    }
    FgetsFillsBuffer(line, max);
    var chunk := FgetsChunk(line, max);
    assert NEWLINE !in line[|chunk|..] by {
      forall i | 0 <= i < |line| - |chunk| ensures line[|chunk|..][i] != NEWLINE {
        assert line[|chunk|..][i] == line[|chunk| + i];
      }
    }
  }

  /** "exit" typed as the very last characters of input, with no newline, is not seen as "exit". */
  lemma UnterminatedExitExample(s: seq<char>)
    requires s == "exit"
    ensures ReadUserLine(s, 100) == Line([], [], true)
  {
    UnterminatedLastLineRejected(s, 100);
  }
}
