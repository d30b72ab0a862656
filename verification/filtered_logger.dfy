/** Log-line redaction. `filter_datum` performs one regular-expression
    substitution, `re.sub("(?<=S=)[^S]+", redaction, message)` where `S` is the
    separator: every maximal run of non-separator characters that directly
    follows `S=` is replaced. It is modelled as the left-to-right scan that the
    substitution performs; the look-behind always inspects the original message. */
module FilteredLogger {
  import opened Wrappers
  import opened Strings

  /** Characters that would change the meaning of the pattern, into which the
      separator is pasted unescaped. */
  const Metacharacters: string := ".^$*+?{}[]\\|()"

  predicate PlainSeparator(c: char) {
    c !in Metacharacters
  }

  /** The replacement string is a template; without a backslash it is inserted literally. */
  predicate LiteralReplacement(redaction: string) {
    '\\' !in redaction
  }

  /** The pattern can match starting at position `i`: `S=` just before it
      (the look-behind) and at least one non-separator character at it. */
  predicate MatchStart(m: string, sep: char, i: nat) {
    2 <= i < |m| && m[i - 2] == sep && m[i - 1] == '=' && m[i] != sep
  }

  /** Where the greedy `[^S]+` starting at `i` stops: the next separator, or the end. */
  function RunEnd(m: string, sep: char, i: nat): (j: nat)
    requires i <= |m|
    ensures i <= j <= |m|
    ensures j < |m| ==> m[j] == sep
    decreases |m| - i
  {
    if i == |m| || m[i] == sep then i else RunEnd(m, sep, i + 1)
  }

  /** The run from `i` holds no separator. */
  lemma {:induction false} RunEndSkips(m: string, sep: char, i: nat)
    requires i <= |m|
    ensures forall k :: i <= k < RunEnd(m, sep, i) ==> m[k] != sep
    decreases |m| - i
  {
    if i < |m| && m[i] != sep {
      RunEndSkips(m, sep, i + 1);
    }
  }

  /** The substitution's scan from position `i` onwards: a match is replaced and
      the scan resumes at its end; otherwise one character is copied. */
  function Substitute(m: string, sep: char, redaction: string, i: nat): string
    requires i <= |m|
    decreases |m| - i
  {
    if i == |m| then ""
    else if MatchStart(m, sep, i) then
      redaction + Substitute(m, sep, redaction, RunEnd(m, sep, i))
    else
      [m[i]] + Substitute(m, sep, redaction, i + 1)
  }

  /** `filter_datum(fields, redaction, message, separator)`. The pattern is
      built from the separator alone: `fields` is never read. For any separator
      other than `=` the result is the segment-wise redaction; for `=` it is
      the run-wise one. */
  function FilterDatum(fields: seq<string>, redaction: string, message: string, separator: char): (r: string)
    requires PlainSeparator(separator) && LiteralReplacement(redaction)
    ensures separator != '=' ==> r == RedactedBySegments(message, separator, redaction)
    ensures separator == '=' ==> r == RedactedByRuns(message, redaction)
  {
    ScanRedactsSegments(message, separator, redaction);
    ScanRedactsRuns(message, redaction);
    Substitute(message, separator, redaction, 0)
  }

  // ---------------------------------------------------------------------------
  // A reference definition over the separator-delimited segments of the message

  /** A segment that starts with `=` and has something after it has that
      remainder replaced; every other segment is kept. */
  function RedactValue(segment: string, redaction: string): string {
    if |segment| >= 2 && segment[0] == '=' then "=" + redaction else segment
  }

  function RedactAll(segments: seq<string>, redaction: string): (r: seq<string>)
    ensures |r| == |segments|
    ensures forall i :: 0 <= i < |r| ==> r[i] == RedactValue(segments[i], redaction)
  {
    if |segments| == 0 then [] else [RedactValue(segments[0], redaction)] + RedactAll(segments[1..], redaction)
  }

  /** The first segment has no separator before it and is always kept; every
      later segment is redacted by `RedactValue`; the separators stay. */
  function RedactedBySegments(message: string, sep: char, redaction: string): string {
    var segments := Split(message, sep);
    Join([segments[0]] + RedactAll(segments[1..], redaction), sep)
  }

  /** Where no match can start, the scan copies the message. */
  lemma {:induction false} CopyThrough(m: string, sep: char, redaction: string, a: nat, j: nat)
    requires a <= j <= |m|
    requires forall k :: a <= k < j ==> !MatchStart(m, sep, k)
    ensures Substitute(m, sep, redaction, a) == m[a..j] + Substitute(m, sep, redaction, j)
    decreases j - a
  {
    if a < j {
      var rest := Substitute(m, sep, redaction, j);
      assert Substitute(m, sep, redaction, a) == [m[a]] + Substitute(m, sep, redaction, a + 1) by {
        assert !MatchStart(m, sep, a);
      }
      CopyThrough(m, sep, redaction, a + 1, j);
      ConsSlice(m, a, j, rest);
    }
  }

  lemma ConsSlice(m: string, a: nat, j: nat, rest: string)
    requires a < j <= |m|
    ensures [m[a]] + (m[a + 1..j] + rest) == m[a..j] + rest
  {
    assert m[a..j] == [m[a]] + m[a + 1..j];
  }

  /** The scan over one segment that follows a separator: it emits the redacted
      segment and continues at the next separator (or the end). */
  lemma {:induction false} ScanSegment(m: string, sep: char, redaction: string, i: nat, j: nat)
    requires sep != '='
    requires 0 < i <= j <= |m| && m[i - 1] == sep
    requires j < |m| ==> m[j] == sep
    requires forall k :: i <= k < j ==> m[k] != sep
    ensures Substitute(m, sep, redaction, i) == RedactValue(m[i..j], redaction) + Substitute(m, sep, redaction, j)
  {
    var seg := m[i..j];
    if |seg| >= 2 && seg[0] == '=' {
      assert !MatchStart(m, sep, i);
      assert MatchStart(m, sep, i + 1);
      var e := RunEnd(m, sep, i + 1);
      RunEndSkips(m, sep, i + 1);
      assert e == j;
      assert Substitute(m, sep, redaction, i) == [m[i]] + Substitute(m, sep, redaction, i + 1);
    } else {
      forall k | i <= k < j
        ensures !MatchStart(m, sep, k)
      {
        if k >= i + 2 {
          assert m[k - 2] != sep;
        }
      }
      CopyThrough(m, sep, redaction, i, j);
    }
  }

  /** The reference output of a segment list whose first segment ends at the
      first separator. */
  lemma RedactJoinStep(t: string, sep: char, redaction: string, k: nat, head: string, rest: string)
    requires k == IndexOf(t, sep) && k < |t| && head == t[..k] && rest == t[k + 1..]
    ensures Join(RedactAll(Split(t, sep), redaction), sep)
            == RedactValue(head, redaction) + [sep] + Join(RedactAll(Split(rest, sep), redaction), sep)
  {
    var pieces := Split(rest, sep);
    SplitAtFirst(t, sep, k);
    assert RedactAll([head] + pieces, redaction) == [RedactValue(head, redaction)] + RedactAll(pieces, redaction);
    JoinCons(RedactValue(head, redaction), RedactAll(pieces, redaction), sep);
  }

  lemma Reassociate(whole: string, head: string, rest: string, sep: char, tail: string)
    requires whole == head + rest && rest == [sep] + tail
    ensures whole == head + [sep] + tail
  {
  }

  /** At a separator the scan copies it and moves on. */
  lemma ScanSeparator(m: string, sep: char, redaction: string, j: nat)
    requires j < |m| && m[j] == sep
    ensures Substitute(m, sep, redaction, j) == [sep] + Substitute(m, sep, redaction, j + 1)
  {
    assert !MatchStart(m, sep, j);
  }

  /** The redacted segments of `m` from position `i` on, joined by the
      separator, computed one segment at a time. */
  function RedactFrom(m: string, sep: char, redaction: string, i: nat): string
    requires i <= |m|
    decreases |m| - i
  {
    var j := RunEnd(m, sep, i);
    if j == |m| then RedactValue(m[i..], redaction)
    else RedactValue(m[i..j], redaction) + [sep] + RedactFrom(m, sep, redaction, j + 1)
  }

  /** Two texts that share the first segment and the separator after it, and
      whose remainders agree, agree. */
  lemma Step(x: string, y: string, head: string, sep: char, restX: string, restY: string)
    requires x == head + [sep] + restX && y == head + [sep] + restY && restX == restY
    ensures x == y
  {
  }

  /** From just after a separator, the scan produces the redacted segments of
      the rest of the message. */
  lemma {:induction false} ScanAfterSeparator(m: string, sep: char, redaction: string, i: nat)
    requires sep != '='
    requires 0 < i <= |m| && m[i - 1] == sep
    ensures Substitute(m, sep, redaction, i) == RedactFrom(m, sep, redaction, i)
    decreases |m| - i
  {
    var j := RunEnd(m, sep, i);
    RunEndSkips(m, sep, i);
    ScanSegment(m, sep, redaction, i, j);
    if j == |m| {
      assert m[i..j] == m[i..];
    } else {
      ScanSeparator(m, sep, redaction, j);
      ScanAfterSeparator(m, sep, redaction, j + 1);
      Reassociate(Substitute(m, sep, redaction, i), RedactValue(m[i..j], redaction), Substitute(m, sep, redaction, j), sep,
                  Substitute(m, sep, redaction, j + 1));
      Step(Substitute(m, sep, redaction, i), RedactFrom(m, sep, redaction, i), RedactValue(m[i..j], redaction), sep,
           Substitute(m, sep, redaction, j + 1), RedactFrom(m, sep, redaction, j + 1));
    }
  }

  /** The segment that starts at `i` ends where the run of non-separators
      from `i` ends. */
  lemma RunEndIsIndexOf(m: string, sep: char, i: nat)
    requires i <= |m|
    ensures IndexOf(m[i..], sep) == RunEnd(m, sep, i) - i
  {
    var j := RunEnd(m, sep, i);
    var t := m[i..];
    RunEndSkips(m, sep, i);
    assert forall q :: 0 <= q < j - i ==> t[q] == m[i + q];
    if j < |m| {
      assert t[j - i] == m[j];
    }
  }

  /** Index-wise and list-wise segment redaction agree. */
  lemma {:induction false} RedactFromIsJoin(m: string, sep: char, redaction: string, i: nat)
    requires i <= |m|
    ensures RedactFrom(m, sep, redaction, i) == Join(RedactAll(Split(m[i..], sep), redaction), sep)
    decreases |m| - i
  {
    var j := RunEnd(m, sep, i);
    var whole := Join(RedactAll(Split(m[i..], sep), redaction), sep);
    if j == |m| {
      assert RedactFrom(m, sep, redaction, i) == RedactValue(m[i..], redaction);
      assert whole == RedactValue(m[i..], redaction) by {
        RunEndIsIndexOf(m, sep, i);
        assert Split(m[i..], sep) == [m[i..]];
      }
    } else {
      var next := j + 1;
      var head := RedactValue(m[i..j], redaction);
      var restX := RedactFrom(m, sep, redaction, next);
      var restY := Join(RedactAll(Split(m[next..], sep), redaction), sep);
      assert RedactFrom(m, sep, redaction, i) == head + [sep] + restX by {
        RedactFromStep(m, sep, redaction, i, j, next);
      }
      RedactFromIsJoin(m, sep, redaction, next);
      assert whole == head + [sep] + restY by {
        JoinSegmentsStep(m, sep, redaction, i, j, next);
      }
      Step(RedactFrom(m, sep, redaction, i), whole, head, sep, restX, restY);
    }
  }

  lemma RedactFromStep(m: string, sep: char, redaction: string, i: nat, j: nat, next: nat)
    requires i <= |m| && j == RunEnd(m, sep, i) && next == j + 1 <= |m|
    ensures RedactFrom(m, sep, redaction, i) == RedactValue(m[i..j], redaction) + [sep] + RedactFrom(m, sep, redaction, next)
  {
    assert j != |m|;
  }

  /** A segment followed by the separator and more, as the list-wise
      reference emits it; `next` is where the following segment starts. */
  lemma JoinSegmentsStep(m: string, sep: char, redaction: string, i: nat, j: nat, next: nat)
    requires i <= |m| && j == RunEnd(m, sep, i) && next == j + 1 <= |m|
    ensures Join(RedactAll(Split(m[i..], sep), redaction), sep)
            == RedactValue(m[i..j], redaction) + [sep] + Join(RedactAll(Split(m[next..], sep), redaction), sep)
  {
    RunEndIsIndexOf(m, sep, i);
    SlicesOfSlice(m, i, j);
    RedactJoinStep(m[i..], sep, redaction, j - i, m[i..j], m[next..]);
  }


  /** Before the first separator no match can start, so the scan copies the
      first segment as it is. */
  lemma {:induction false} ScanFirstSegment(m: string, sep: char, redaction: string)
    ensures var k := IndexOf(m, sep);
            Substitute(m, sep, redaction, 0) == m[..k] + Substitute(m, sep, redaction, k)
  {
    var k := IndexOf(m, sep);
    forall q | 0 <= q < k
      ensures !MatchStart(m, sep, q)
    {
      if q >= 2 {
        assert m[q - 2] != sep;
      }
    }
    CopyThrough(m, sep, redaction, 0, k);
    assert m[0..k] == m[..k];
  }

  /** `filter_datum` agrees with the segment-wise reference on every message,
      for any separator other than `=` itself. */
  lemma {:induction false} ScanRedactsSegments(message: string, separator: char, redaction: string)
    ensures separator != '=' ==> Substitute(message, separator, redaction, 0) == RedactedBySegments(message, separator, redaction)
  {
    var m, sep := message, separator;
    var k := IndexOf(m, sep);
    ScanFirstSegment(m, sep, redaction);
    if sep == '=' {
    } else if k == |m| {
      assert Split(m, sep) == [m];
      assert m[..k] == m;
    } else {
      assert !MatchStart(m, sep, k);
      assert Substitute(m, sep, redaction, k) == [sep] + Substitute(m, sep, redaction, k + 1);
      ScanAfterSeparator(m, sep, redaction, k + 1);
      RedactFromIsJoin(m, sep, redaction, k + 1);
      var rest := Split(m[k + 1..], sep);
      SplitAtFirst(m, sep, k);
      assert Split(m, sep)[1..] == rest;
      JoinCons(m[..k], RedactAll(rest, redaction), sep);
      Reassociate(Substitute(m, sep, redaction, 0), m[..k], Substitute(m, sep, redaction, k), sep,
                  Join(RedactAll(rest, redaction), sep));
    }
  }

  // ---------------------------------------------------------------------------
  // The separator `=` itself: the pattern becomes `(?<===)[^=]+`

  /** With `=` as the separator, segments hold no `=`, so a match is a whole
      non-empty segment whose previous segment is empty and itself follows a
      separator. `marked` says whether the segment before `segments[0]` is such
      an empty segment; every segment here follows a separator. */
  function RedactRuns(segments: seq<string>, redaction: string, marked: bool): (r: seq<string>)
    ensures |r| == |segments|
    ensures |r| > 0 ==> r[0] == if marked && segments[0] != "" then redaction else segments[0]
    ensures forall k :: 0 < k < |r| ==> r[k] == if segments[k - 1] == "" && segments[k] != "" then redaction else segments[k]
    decreases |segments|
  {
    if |segments| == 0 then []
    else
      var rest := RedactRuns(segments[1..], redaction, segments[0] == "");
      var r := [if marked && segments[0] != "" then redaction else segments[0]] + rest;
      assert forall k :: 0 < k < |r| ==> r[k] == rest[k - 1] && segments[k] == segments[1..][k - 1];
      r
  }

  /** The segment starting at `i`, just after an `=`, follows an empty segment
      that itself follows an `=`. */
  predicate Marked(m: string, i: nat)
    requires i <= |m|
  {
    i >= 2 && m[i - 2] == '='
  }

  /** The reference output for the separator `=`: the first segment has no
      separator before it and is kept; the later ones go through `RedactRuns`. */
  function RedactedByRuns(message: string, redaction: string): string {
    var segments := Split(message, '=');
    Join([segments[0]] + RedactRuns(segments[1..], redaction, false), '=')
  }

  /** The runs of `m` from the segment starting at `i` on, joined by `=`,
      computed one segment at a time. */
  function RunsFrom(m: string, redaction: string, i: nat): string
    requires 0 < i <= |m| && m[i - 1] == '='
    decreases |m| - i
  {
    var j := RunEnd(m, '=', i);
    var segment := if MatchStart(m, '=', i) then redaction else m[i..j];
    if j == |m| then segment else segment + ['='] + RunsFrom(m, redaction, j + 1)
  }

  /** The scan over one segment after an `=`: either the whole segment is a
      match, or no match starts inside it. */
  lemma ScanRun(m: string, redaction: string, i: nat)
    requires 0 < i <= |m| && m[i - 1] == '='
    ensures var j := RunEnd(m, '=', i);
            Substitute(m, '=', redaction, i)
            == (if MatchStart(m, '=', i) then redaction else m[i..j]) + Substitute(m, '=', redaction, j)
  {
    var j := RunEnd(m, '=', i);
    RunEndSkips(m, '=', i);
    if !MatchStart(m, '=', i) {
      forall k | i <= k < j
        ensures !MatchStart(m, '=', k)
      {
        if k > i {
          assert m[k - 1] != '=';
        }
      }
      CopyThrough(m, '=', redaction, i, j);
    }
  }

  lemma {:induction false} ScanRuns(m: string, redaction: string, i: nat)
    requires 0 < i <= |m| && m[i - 1] == '='
    ensures Substitute(m, '=', redaction, i) == RunsFrom(m, redaction, i)
    decreases |m| - i
  {
    var j := RunEnd(m, '=', i);
    var segment := if MatchStart(m, '=', i) then redaction else m[i..j];
    ScanRun(m, redaction, i);
    if j == |m| {
      assert segment + "" == segment;
    } else {
      ScanSeparator(m, '=', redaction, j);
      ScanRuns(m, redaction, j + 1);
      Reassociate(Substitute(m, '=', redaction, i), segment, Substitute(m, '=', redaction, j), '=',
                  Substitute(m, '=', redaction, j + 1));
      Step(Substitute(m, '=', redaction, i), RunsFrom(m, redaction, i), segment, '=',
           Substitute(m, '=', redaction, j + 1), RunsFrom(m, redaction, j + 1));
    }
  }

  /** The reference output of a segment list whose first segment, `head`, ends
      at the first `=`. */
  lemma RunsJoinStep(t: string, redaction: string, marked: bool, k: nat, head: string, rest: string, restMarked: bool)
    requires k == IndexOf(t, '=') && k < |t|
    requires head == t[..k] && rest == t[k + 1..] && restMarked == (head == "")
    ensures Join(RedactRuns(Split(t, '='), redaction, marked), '=')
            == (if marked && head != "" then redaction else head) + ['=']
               + Join(RedactRuns(Split(rest, '='), redaction, restMarked), '=')
  {
    var pieces := Split(rest, '=');
    var first := if marked && head != "" then redaction else head;
    SplitAtFirst(t, '=', k);
    assert RedactRuns([head] + pieces, redaction, marked) == [first] + RedactRuns(pieces, redaction, restMarked);
    JoinCons(first, RedactRuns(pieces, redaction, restMarked), '=');
  }

  /** A segment after an `=` is a match exactly when it is non-empty and
      marked; it is empty exactly when the character before its end is `=`. */
  lemma RunFacts(m: string, i: nat)
    requires 0 < i <= |m| && m[i - 1] == '='
    ensures var j := RunEnd(m, '=', i);
            MatchStart(m, '=', i) == (Marked(m, i) && m[i..j] != "") &&
            (j < |m| ==> (m[i..j] == "") == Marked(m, j + 1))
  {
    var j := RunEnd(m, '=', i);
    RunEndSkips(m, '=', i);
    if j > i {
      assert m[j - 1] != '=';
    }
  }

  /** The last segment on its own. */
  lemma RunsLast(t: string, redaction: string, marked: bool)
    requires '=' !in t
    ensures Join(RedactRuns(Split(t, '='), redaction, marked), '=') == if marked && t != "" then redaction else t
  {
    assert Split(t, '=') == [t];
    assert RedactRuns([t], redaction, marked) == [if marked && t != "" then redaction else t];
  }

  lemma SlicesOfSlice(m: string, i: nat, j: nat)
    requires i <= j < |m|
    ensures m[i..][j - i + 1..] == m[j + 1..] && m[i..][..j - i] == m[i..j]
  {
  }

  /** The segment starting at `i` as the reference emits it. */
  function RunSegment(m: string, redaction: string, i: nat): string
    requires i <= |m|
  {
    var j := RunEnd(m, '=', i);
    if Marked(m, i) && m[i..j] != "" then redaction else m[i..j]
  }

  lemma RunsFromLast(m: string, redaction: string, i: nat)
    requires 0 < i <= |m| && m[i - 1] == '=' && RunEnd(m, '=', i) == |m|
    ensures RunsFrom(m, redaction, i) == RunSegment(m, redaction, i)
  {
    RunFacts(m, i);
  }

  lemma RunsFromStep(m: string, redaction: string, i: nat, next: nat)
    requires 0 < i <= |m| && m[i - 1] == '=' && next == RunEnd(m, '=', i) + 1 <= |m|
    ensures RunsFrom(m, redaction, i) == RunSegment(m, redaction, i) + ['='] + RunsFrom(m, redaction, next)
  {
    RunFacts(m, i);
  }

  /** The last segment, as the list-wise reference emits it. */
  lemma JoinRunsLast(m: string, redaction: string, i: nat)
    requires 0 < i <= |m| && m[i - 1] == '=' && RunEnd(m, '=', i) == |m|
    ensures Join(RedactRuns(Split(m[i..], '='), redaction, Marked(m, i)), '=') == RunSegment(m, redaction, i)
  {
    var t := m[i..];
    RunEndSkips(m, '=', i);
    assert m[i..RunEnd(m, '=', i)] == t;
    RunsLast(t, redaction, Marked(m, i));
  }

  /** A segment followed by `=` and more, as the list-wise reference emits it;
      `next` is where the following segment starts. */
  lemma JoinRunsStep(m: string, redaction: string, i: nat, next: nat)
    requires 0 < i <= |m| && m[i - 1] == '=' && next == RunEnd(m, '=', i) + 1 <= |m|
    ensures Join(RedactRuns(Split(m[i..], '='), redaction, Marked(m, i)), '=')
            == RunSegment(m, redaction, i) + ['='] + Join(RedactRuns(Split(m[next..], '='), redaction, Marked(m, next)), '=')
  {
    var j := next - 1;
    RunFacts(m, i);
    RunEndIsIndexOf(m, '=', i);
    SlicesOfSlice(m, i, j);
    RunsJoinStep(m[i..], redaction, Marked(m, i), j - i, m[i..j], m[next..], Marked(m, next));
  }

  /** Index-wise and list-wise run redaction agree. */
  lemma {:induction false} RunsFromIsJoin(m: string, redaction: string, i: nat)
    requires 0 < i <= |m| && m[i - 1] == '='
    ensures RunsFrom(m, redaction, i) == Join(RedactRuns(Split(m[i..], '='), redaction, Marked(m, i)), '=')
    decreases |m| - i
  {
    var j := RunEnd(m, '=', i);
    var whole := Join(RedactRuns(Split(m[i..], '='), redaction, Marked(m, i)), '=');
    var segment := RunSegment(m, redaction, i);
    if j == |m| {
      assert RunsFrom(m, redaction, i) == segment by {
        RunsFromLast(m, redaction, i);
      }
      assert whole == segment by {
        JoinRunsLast(m, redaction, i);
      }
    } else {
      var next := j + 1;
      var restX := RunsFrom(m, redaction, next);
      var restY := Join(RedactRuns(Split(m[next..], '='), redaction, Marked(m, next)), '=');
      assert RunsFrom(m, redaction, i) == segment + ['='] + restX by {
        RunsFromStep(m, redaction, i, next);
      }
      RunsFromIsJoin(m, redaction, next);
      assert whole == segment + ['='] + restY by {
        JoinRunsStep(m, redaction, i, next);
      }
      Step(RunsFrom(m, redaction, i), whole, segment, '=', restX, restY);
    }
  }

  /** `filter_datum` with the separator `=` agrees with the run-wise reference
      on every message. */
  lemma {:induction false} ScanRedactsRuns(message: string, redaction: string)
    ensures Substitute(message, '=', redaction, 0) == RedactedByRuns(message, redaction)
  {
    var m := message;
    var k := IndexOf(m, '=');
    ScanFirstSegment(m, '=', redaction);
    if k == |m| {
      assert Split(m, '=') == [m];
      assert m[..k] == m;
    } else {
      var next := k + 1;
      var rest := Split(m[next..], '=');
      var tail := Join(RedactRuns(rest, redaction, false), '=');
      assert Substitute(m, '=', redaction, k) == ['='] + Substitute(m, '=', redaction, next) by {
        assert !MatchStart(m, '=', k);
      }
      assert Substitute(m, '=', redaction, next) == tail by {
        ScanRuns(m, redaction, next);
        RunsFromIsJoin(m, redaction, next);
        assert !Marked(m, next);
      }
      assert RedactedByRuns(m, redaction) == m[..k] + ['='] + tail by {
        SplitAtFirst(m, '=', k);
        assert Split(m, '=')[1..] == rest;
        JoinCons(m[..k], RedactRuns(rest, redaction, false), '=');
      }
      Reassociate(Substitute(m, '=', redaction, 0), m[..k], Substitute(m, '=', redaction, k), '=', tail);
    }
  }

  /** A non-empty redaction keeps every segment's emptiness, so a second pass
      marks the same segments and replaces them by the redaction again. */
  lemma {:induction false} RedactRunsIsIdempotent(segments: seq<string>, redaction: string, marked: bool)
    requires redaction != ""
    ensures RedactRuns(RedactRuns(segments, redaction, marked), redaction, marked) == RedactRuns(segments, redaction, marked)
    decreases |segments|
  {
    if |segments| > 0 {
      var r := RedactRuns(segments, redaction, marked);
      RedactRunsIsIdempotent(segments[1..], redaction, segments[0] == "");
      assert r[1..] == RedactRuns(segments[1..], redaction, segments[0] == "");
      assert (r[0] == "") == (segments[0] == "");
    }
  }

  /** The output never depends on the list of fields. */
  lemma FilterDatumIgnoresFields(fields: seq<string>, others: seq<string>, redaction: string, message: string, separator: char)
    requires PlainSeparator(separator) && LiteralReplacement(redaction)
    ensures FilterDatum(fields, redaction, message, separator) == FilterDatum(others, redaction, message, separator)
  {
  }

  /** `S=` occurs somewhere in the message. */
  predicate ContainsMarker(m: string, sep: char) {
    exists i :: 0 <= i < |m| - 1 && m[i] == sep && m[i + 1] == '='
  }

  /** A message in which `S=` never occurs comes back unchanged. */
  lemma FilterDatumWithoutMarkerIsIdentity(fields: seq<string>, redaction: string, message: string, separator: char)
    requires PlainSeparator(separator) && LiteralReplacement(redaction)
    requires !ContainsMarker(message, separator)
    ensures FilterDatum(fields, redaction, message, separator) == message
  {
    forall k | 0 <= k < |message|
      ensures !MatchStart(message, separator, k)
    {
      if 2 <= k {
        assert !(message[k - 2] == separator && message[k - 2 + 1] == '=');
      }
    }
    CopyThrough(message, separator, redaction, 0, |message|);
    assert message[0..|message|] == message;
  }

  /** When the redaction holds no separator, the output has exactly the
      separators of the message, in the same places between segments: the
      first segment is kept, and every later one is kept or has its value
      replaced as `RedactValue` says. */
  lemma FilterDatumKeepsSegments(fields: seq<string>, redaction: string, message: string, separator: char)
    requires PlainSeparator(separator) && LiteralReplacement(redaction)
    requires separator != '=' && separator !in redaction
    ensures var before := Split(message, separator);
            var after := Split(FilterDatum(fields, redaction, message, separator), separator);
            |after| == |before| && after[0] == before[0] &&
            forall i :: 0 < i < |before| ==> after[i] == RedactValue(before[i], redaction)
  {
    var segments := Split(message, separator);
    var pieces := [segments[0]] + RedactAll(segments[1..], redaction);
    forall i | 0 <= i < |pieces|
      ensures separator !in pieces[i]
    {
      if i > 0 {
        assert pieces[i] == RedactValue(segments[i], redaction);
        if |segments[i]| >= 2 && segments[i][0] == '=' {
          assert forall c :: c in "=" + redaction ==> c == '=' || c in redaction;
        }
      }
    }
    SplitJoin(pieces, separator);
  }

  /** With a redaction free of separators, redacting twice is the same as
      redacting once. For a separator other than `=`, an empty redaction leaves
      a bare `=`, which no later pass matches. For `=` the redaction must not
      be empty: emptying a segment would mark the one after it. */
  lemma FilterDatumIsIdempotent(fields: seq<string>, redaction: string, message: string, separator: char)
    requires PlainSeparator(separator) && LiteralReplacement(redaction)
    requires separator !in redaction
    requires separator == '=' ==> redaction != ""
    ensures var once := FilterDatum(fields, redaction, message, separator);
            FilterDatum(fields, redaction, once, separator) == once
  {
    if separator == '=' {
      RunsAreIdempotent(redaction, message);
    } else {
      SegmentsAreIdempotent(redaction, message, separator);
    }
  }

  /** The one case idempotence leaves out: with `=` as the separator and an
      empty redaction, a second pass redacts a run the first pass produced,
      so `==x=y` becomes `===y` and then `===`. */
  lemma EmptyRedactionIsNotIdempotent(x: string, y: string)
    requires x != "" && y != "" && '=' !in x && '=' !in y
    ensures var once := FilterDatum([], "", "==" + x + "=" + y, '=');
            once == "===" + y && FilterDatum([], "", once, '=') == "==="
  {
    EmptyRedactionFirstPass(x, y);
    EmptyRedactionSecondPass(y);
  }

  lemma EmptyRedactionFirstPass(x: string, y: string)
    requires x != "" && y != "" && '=' !in x && '=' !in y
    ensures RedactedByRuns("==" + x + "=" + y, "") == "===" + y
  {
    SplitFour("", "", x, y, '=', "==" + x + "=" + y);
    var runs := RedactRuns(["", x, y], "", false);
    assert runs == ["", "", y] by {
      assert runs[1] == "" && runs[2] == y;
    }
    assert [""] + runs == ["", "", "", y];
    JoinFour("", "", "", y, '=', "===" + y);
  }

  lemma EmptyRedactionSecondPass(y: string)
    requires y != "" && '=' !in y
    ensures RedactedByRuns("===" + y, "") == "==="
  {
    SplitFour("", "", "", y, '=', "===" + y);
    var runs := RedactRuns(["", "", y], "", false);
    assert runs == ["", "", ""] by {
      assert runs[1] == "" && runs[2] == "";
    }
    assert [""] + runs == ["", "", "", ""];
    JoinFour("", "", "", "", '=', "===");
  }

  lemma SplitFour(a: string, b: string, c: string, d: string, sep: char, s: string)
    requires sep !in a && sep !in b && sep !in c && sep !in d
    requires s == a + [sep] + b + [sep] + c + [sep] + d
    ensures Split(s, sep) == [a, b, c, d]
  {
    JoinFour(a, b, c, d, sep, s);
    SplitJoin([a, b, c, d], sep);
  }

  lemma JoinFour(a: string, b: string, c: string, d: string, sep: char, s: string)
    requires s == a + [sep] + b + [sep] + c + [sep] + d
    ensures Join([a, b, c, d], sep) == s
  {
    assert [c, d][1..] == [d];
    assert Join([c, d], sep) == c + [sep] + d;
    assert [b, c, d][1..] == [c, d];
    assert Join([b, c, d], sep) == b + [sep] + (c + [sep] + d);
    assert [a, b, c, d][1..] == [b, c, d];
  }

  lemma SegmentsAreIdempotent(redaction: string, message: string, separator: char)
    requires separator != '=' && separator !in redaction
    ensures RedactedBySegments(RedactedBySegments(message, separator, redaction), separator, redaction)
            == RedactedBySegments(message, separator, redaction)
  {
    var segments := Split(message, separator);
    var tail := RedactAll(segments[1..], redaction);
    var pieces := [segments[0]] + tail;
    forall i | 0 <= i < |pieces|
      ensures separator !in pieces[i]
    {
      if i > 0 {
        assert pieces[i] == RedactValue(segments[i], redaction);
        if |segments[i]| >= 2 && segments[i][0] == '=' {
          assert forall c :: c in "=" + redaction ==> c == '=' || c in redaction;
        }
      }
    }
    SplitJoin(pieces, separator);
    assert pieces[1..] == tail;
    assert RedactAll(tail, redaction) == tail;
  }

  lemma RunsAreIdempotent(redaction: string, message: string)
    requires redaction != "" && '=' !in redaction
    ensures RedactedByRuns(RedactedByRuns(message, redaction), redaction) == RedactedByRuns(message, redaction)
  {
    var segments := Split(message, '=');
    var tail := RedactRuns(segments[1..], redaction, false);
    var pieces := [segments[0]] + tail;
    forall i | 0 <= i < |pieces|
      ensures '=' !in pieces[i]
    {
      if i > 0 {
        assert pieces[i] == tail[i - 1];
        assert segments[1..][i - 1] == segments[i] && '=' !in segments[i];
        var rest := segments[1..];
        if i == 1 {
          assert tail[0] == rest[0];
        } else {
          assert tail[i - 1] == if rest[i - 2] == "" && rest[i - 1] != "" then redaction else rest[i - 1];
        }
      }
    }
    SplitJoin(pieces, '=');
    assert pieces[1..] == tail;
    RedactRunsIsIdempotent(segments[1..], redaction, false);
  }

  // ---------------------------------------------------------------------------
  // What the pattern misses, and the redaction the documentation describes

  /** On an ordinary `name=value;` log line nothing is redacted, whatever
      `fields` says: the look-behind wants the separator immediately before `=`,
      and the field name stands there. */
  lemma FilterDatumLeavesFieldVisible(fields: seq<string>, redaction: string, name: string, value: string, separator: char)
    requires PlainSeparator(separator) && LiteralReplacement(redaction)
    requires separator != '=' && separator !in name && separator !in value
    ensures FilterDatum(fields, redaction, name + "=" + value + [separator], separator) == name + "=" + value + [separator]
  {
    var field := name + "=" + value;
    var m := field + [separator];
    forall i | 0 <= i < |m| - 1
      ensures m[i] != separator
    {
      if i < |name| {
        assert m[i] == name[i];
      } else if i > |name| {
        assert m[i] == value[i - |name| - 1];
      }
    }
    FilterDatumWithoutMarkerIsIdentity(fields, redaction, m, separator);
  }

  /** The name of a `name=value` segment: the text before its first `=`. */
  function FieldName(segment: string): (r: Option<string>)
    ensures r.Some? ==> '=' !in r.value && StartsWith(segment, r.value + "=")
    ensures r.None? <==> '=' !in segment
  {
    var eq := IndexOf(segment, '=');
    if eq == |segment| then None
    else
      assert segment[..eq + 1] == segment[..eq] + "=";
      Some(segment[..eq])
  }

  /** A segment whose name is one of `fields` keeps its name and gets the
      redaction as its value. */
  function RedactField(fields: seq<string>, redaction: string, segment: string): string {
    var name := FieldName(segment);
    if name.Some? && name.value in fields then name.value + "=" + redaction else segment
  }

  function RedactFields(fields: seq<string>, redaction: string, segments: seq<string>): (r: seq<string>)
    ensures |r| == |segments|
    ensures forall i :: 0 <= i < |r| ==> r[i] == RedactField(fields, redaction, segments[i])
  {
    seq(|segments|, i requires 0 <= i < |segments| => RedactField(fields, redaction, segments[i]))
  }

  /** The redaction the documentation of `filter_datum` describes: the value of
      every field named in `fields` is replaced, everything else is kept. */
  function FilterFields(fields: seq<string>, redaction: string, message: string, separator: char): string {
    Join(RedactFields(fields, redaction, Split(message, separator)), separator)
  }

  /** With a redaction free of separators, the documented redaction keeps the
      segments of the message: a segment whose name is listed in `fields`
      becomes `name=` and the redaction, every other segment is unchanged. */
  lemma FilterFieldsRedactsNamedFields(fields: seq<string>, redaction: string, message: string, separator: char)
    requires separator !in redaction
    ensures var before := Split(message, separator);
            var after := Split(FilterFields(fields, redaction, message, separator), separator);
            |after| == |before| &&
            forall i :: 0 <= i < |before| ==>
              var name := FieldName(before[i]);
              (name.Some? && name.value in fields ==> after[i] == name.value + "=" + redaction) &&
              (!(name.Some? && name.value in fields) ==> after[i] == before[i])
  {
    FieldsStaySeparate(fields, redaction, Split(message, separator), separator);
    SplitJoin(RedactFields(fields, redaction, Split(message, separator)), separator);
  }

  lemma FieldsStaySeparate(fields: seq<string>, redaction: string, segments: seq<string>, separator: char)
    requires separator !in redaction
    requires forall i :: 0 <= i < |segments| ==> separator !in segments[i]
    ensures forall i :: 0 <= i < |segments| ==> separator !in RedactFields(fields, redaction, segments)[i]
  {
    forall i | 0 <= i < |segments|
      ensures separator !in RedactFields(fields, redaction, segments)[i]
    {
      var name := FieldName(segments[i]);
      if name.Some? && name.value in fields {
        assert segments[i][..|name.value|] == name.value;
        assert separator !in name.value by {
          forall c | c in name.value ensures c in segments[i] {
            var k :| 0 <= k < |name.value| && name.value[k] == c;
            assert segments[i][k] == c;
          }
        }
        assert forall c :: c in name.value + "=" + redaction ==> c in name.value || c == '=' || c in redaction;
      }
    }
  }

  /** The documented redaction hides the value on the line the pattern misses. */
  lemma FilterFieldsRedactsField(fields: seq<string>, redaction: string, name: string, value: string, separator: char)
    requires name in fields && '=' !in name
    requires separator != '=' && separator !in name && separator !in value && separator !in redaction
    ensures FilterFields(fields, redaction, name + "=" + value + [separator], separator) == name + "=" + redaction + [separator]
  {
    var field := name + "=" + value;
    var m := field + [separator];
    var segments := [field, ""];
    assert separator !in field by {
      forall i | 0 <= i < |field|
        ensures field[i] != separator
      {
        if i < |name| {
          assert field[i] == name[i];
        } else if i > |name| {
          assert field[i] == value[i - |name| - 1];
        }
      }
    }
    assert Join(segments, separator) == m by {
      assert segments[1..] == [""];
    }
    SplitJoin(segments, separator);
    IndexOfPrefix(name, '=', value);
    assert field[..|name|] == name;
    assert FieldName(field) == Some(name);
    var out := RedactFields(fields, redaction, segments);
    assert out == [name + "=" + redaction, ""];
    assert Join(out, separator) == name + "=" + redaction + [separator] by {
      assert out[1..] == [""];
    }
  }
}
