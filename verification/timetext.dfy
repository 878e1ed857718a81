/** Text handling shared by every component: JavaScript's `split`, decimal
    digit strings (`Number`/`parseInt` on digits, `toString`, `padStart`)
    and GTFS `HH:MM[:SS]` time strings, whose hour field may exceed 23 for
    service running past midnight. */
module TimeText {
  import opened Common

  const MinutesPerDay: nat := 1440

  // ---------------------------------------------------------------------
  // split

  /** `s.split(sep)` for a one-character separator. */
  function Split(s: string, sep: char): (r: seq<string>)
    ensures |r| >= 1
    ensures forall i :: 0 <= i < |r| ==> sep !in r[i]
  {
    if |s| == 0 then [""]
    else
      var rest := Split(s[1..], sep);
      if s[0] == sep then [""] + rest
      else
        assert sep !in [s[0]] + rest[0];
        [[s[0]] + rest[0]] + rest[1..]
  }

  /** `pieces.join(sep)`. */
  function Join(pieces: seq<string>, sep: char): string
    requires |pieces| >= 1
  {
    if |pieces| == 1 then pieces[0] else pieces[0] + [sep] + Join(pieces[1..], sep)
  }

  /** Joining the pieces of a split gives the string back. */
  lemma {:induction false} JoinSplit(s: string, sep: char)
    ensures Join(Split(s, sep), sep) == s
  {
    if |s| > 0 {
      JoinSplit(s[1..], sep);
      var rest := Split(s[1..], sep);
      if s[0] != sep {
        var r := Split(s, sep);
        assert r[0] == [s[0]] + rest[0] && r[1..] == rest[1..];
        if |rest| > 1 {
          assert Join(r, sep) == [s[0]] + rest[0] + [sep] + Join(rest[1..], sep);
        }
      }
    }
  }

  /** A piece free of the separator, followed by the separator, splits off. */
  lemma {:induction false} SplitAfterPiece(x: string, sep: char, y: string)
    requires sep !in x
    ensures Split(x + [sep] + y, sep) == [x] + Split(y, sep)
  {
    if |x| > 0 {
      SplitAfterPiece(x[1..], sep, y);
      var s := x + [sep] + y;
      assert s[1..] == x[1..] + [sep] + y;
      assert s[0] == x[0] && x[0] != sep;
      var rest := Split(s[1..], sep);
      assert rest == [x[1..]] + Split(y, sep);
      assert Split(s, sep) == [[s[0]] + rest[0]] + rest[1..];
      assert [x[0]] + x[1..] == x;
    } else {
      assert x + [sep] + y == [sep] + y;
    }
  }

  /** A string free of the separator splits into itself. */
  lemma {:induction false} SplitNoSeparator(x: string, sep: char)
    requires sep !in x
    ensures Split(x, sep) == [x]
  {
    if |x| > 0 {
      SplitNoSeparator(x[1..], sep);
      assert [x[0]] + x[1..] == x;
    }
  }

  /** Splitting a join of separator-free pieces gives the pieces back. */
  lemma {:induction false} SplitJoin(pieces: seq<string>, sep: char)
    requires |pieces| >= 1
    requires forall i :: 0 <= i < |pieces| ==> sep !in pieces[i]
    ensures Split(Join(pieces, sep), sep) == pieces
  {
    if |pieces| == 1 {
      SplitNoSeparator(pieces[0], sep);
    } else {
      SplitJoin(pieces[1..], sep);
      SplitAfterPiece(pieces[0], sep, Join(pieces[1..], sep));
      assert [pieces[0]] + pieces[1..] == pieces;
    }
  }

  /** `sep` occurs in `s` starting at index `k`. */
  predicate OccursAt(s: string, sep: string, k: int) {
    0 <= k && k + |sep| <= |s| && s[k..k + |sep|] == sep
  }

  /** `s.includes(sep)`. */
  predicate Occurs(s: string, sep: string) {
    exists k :: 0 <= k <= |s| && OccursAt(s, sep, k)
  }

  /** `pieces.join(sep)` for a separator of several characters. */
  function JoinOn(pieces: seq<string>, sep: string): (s: string)
    requires |pieces| >= 1
    ensures IsPrefix(pieces[0], s)
  {
    if |pieces| == 1 then pieces[0] else pieces[0] + sep + JoinOn(pieces[1..], sep)
  }

  /** `s.split(sep)` for a separator of several characters: the leftmost
      occurrence is cut first and the scan resumes after it, so the pieces
      joined with `sep` give `s` back and none of them contains `sep`. */
  function SplitOn(s: string, sep: string): (r: seq<string>)
    requires |sep| > 0
    ensures |r| >= 1
    ensures JoinOn(r, sep) == s
    ensures forall i :: 0 <= i < |r| ==> !Occurs(r[i], sep)
    decreases |s|
  {
    if |s| < |sep| then [s]
    else if s[..|sep|] == sep then
      var rest := SplitOn(s[|sep|..], sep);
      assert s == sep + s[|sep|..];
      [""] + rest
    else
      var rest := SplitOn(s[1..], sep);
      SplitOnExtend(s, sep, rest);
      [[s[0]] + rest[0]] + rest[1..]
  }

  /** Prepending a character that does not start `sep` to the first piece
      keeps the pieces free of `sep` and joining to the longer string. */
  lemma SplitOnExtend(s: string, sep: string, rest: seq<string>)
    requires 0 < |sep| <= |s| && s[..|sep|] != sep
    requires |rest| >= 1 && JoinOn(rest, sep) == s[1..]
    requires forall i :: 0 <= i < |rest| ==> !Occurs(rest[i], sep)
    ensures var r := [[s[0]] + rest[0]] + rest[1..];
      && JoinOn(r, sep) == s
      && forall i :: 0 <= i < |r| ==> !Occurs(r[i], sep)
  {
    var piece := [s[0]] + rest[0];
    var r := [piece] + rest[1..];
    JoinOnExtend(s, sep, rest);
    assert IsPrefix(piece, s) by {
      assert r[0] == piece;
    }
    assert !Occurs(piece[1..], sep) by {
      assert piece[1..] == rest[0];
    }
    PieceOccurrence(s, sep, piece);
    forall i | 0 <= i < |r| ensures !Occurs(r[i], sep) {
      if i > 0 {
        assert r[i] == rest[i];
      }
    }
  }

  lemma JoinOnExtend(s: string, sep: string, rest: seq<string>)
    requires |s| >= 1 && |rest| >= 1 && JoinOn(rest, sep) == s[1..]
    ensures JoinOn([[s[0]] + rest[0]] + rest[1..], sep) == s
  {
    var r := [[s[0]] + rest[0]] + rest[1..];
    if |rest| > 1 {
      assert JoinOn(rest, sep) == rest[0] + sep + JoinOn(rest[1..], sep);
      assert r[1..] == rest[1..];
    }
  }

  /** An occurrence of `sep` in a non-empty prefix of `s` either starts `s`
      or lies in the prefix's tail. */
  lemma PieceOccurrence(s: string, sep: string, piece: string)
    requires |piece| >= 1 && IsPrefix(piece, s)
    ensures Occurs(piece, sep) ==> |sep| <= |s| && (s[..|sep|] == sep || Occurs(piece[1..], sep))
  {
    var tail := piece[1..];
    forall k | 0 <= k <= |piece| && OccursAt(piece, sep, k)
      ensures |sep| <= |s| && (s[..|sep|] == sep || Occurs(tail, sep))
    {
      if k == 0 {
        assert piece[..|sep|] == s[..|sep|];
      } else {
        forall m | 0 <= m < |sep| ensures tail[k - 1..k - 1 + |sep|][m] == sep[m] {
          assert tail[k - 1 + m] == piece[k + m];
        }
        assert tail[k - 1..k - 1 + |sep|] == sep;
        assert OccursAt(tail, sep, k - 1);
      }
    }
  }

  /** No occurrence of `sep` starts inside `piece` when `piece` is followed
      by `sep`: the cut after `piece` is the leftmost one available. */
  predicate NoEarlierCut(piece: string, sep: string) {
    forall k :: 0 <= k < |piece| ==> !OccursAt(piece + sep, sep, k)
  }

  /** Every piece but the last ends at the leftmost occurrence of `sep`
      after it starts, which is where `split` cuts. */
  predicate Leftmost(pieces: seq<string>, sep: string) {
    forall i :: 0 <= i < |pieces| - 1 ==> NoEarlierCut(pieces[i], sep)
  }

  /** `split` cuts at the leftmost occurrence each time: for a separator
      that overlaps itself (" → " begins and ends with a space) this rules
      out the other decompositions into separator-free pieces. */
  lemma {:induction false} SplitOnLeftmost(s: string, sep: string)
    requires |sep| > 0
    ensures Leftmost(SplitOn(s, sep), sep)
    decreases |s|
  {
    var r := SplitOn(s, sep);
    if |s| < |sep| {
      assert r == [s];
    } else if s[..|sep|] == sep {
      var rest := SplitOn(s[|sep|..], sep);
      SplitOnLeftmost(s[|sep|..], sep);
      assert r == [""] + rest;
      forall i | 0 <= i < |r| - 1 ensures NoEarlierCut(r[i], sep) {
        if i > 0 {
          assert r[i] == rest[i - 1];
        }
      }
    } else {
      var rest := SplitOn(s[1..], sep);
      SplitOnLeftmost(s[1..], sep);
      assert r == [[s[0]] + rest[0]] + rest[1..];
      forall i | 0 <= i < |r| - 1 ensures NoEarlierCut(r[i], sep) {
        if i == 0 {
          assert JoinOn(rest, sep) == rest[0] + sep + JoinOn(rest[1..], sep);
          FirstCutLeftmost(s, sep, rest[0]);
        } else {
          assert r[i] == rest[i];
        }
      }
    }
  }

  /** Prepending the first character of `s`, where `sep` does not start,
      to a piece with no earlier cut keeps it without one. */
  lemma FirstCutLeftmost(s: string, sep: string, piece: string)
    requires |s| >= 1 && !(|sep| <= |s| && s[..|sep|] == sep)
    requires NoEarlierCut(piece, sep) && IsPrefix(piece + sep, s[1..])
    ensures NoEarlierCut([s[0]] + piece, sep)
  {
    var longer := [s[0]] + piece;
    forall k | 0 <= k < |longer| ensures !OccursAt(longer + sep, sep, k) {
      if k == 0 {
        assert longer + sep == [s[0]] + (piece + sep);
        assert IsPrefix(longer + sep, s);
        assert |sep| <= |longer + sep| ==> (longer + sep)[..|sep|] == s[..|sep|];
      } else {
        assert (longer + sep)[k..] == (piece + sep)[k - 1..];
        assert !OccursAt(piece + sep, sep, k - 1);
      }
    }
  }

  // ---------------------------------------------------------------------
  // decimal digits

  predicate IsDigit(c: char) {
    '0' <= c <= '9'
  }

  predicate AllDigits(s: string) {
    forall i :: 0 <= i < |s| ==> IsDigit(s[i])
  }

  /** A non-empty run of decimal digits: the field shape on which
      `Number(...)` and `parseInt(..., 10)` agree. */
  predicate IsDigits(s: string) {
    |s| > 0 && AllDigits(s)
  }

  function DigitValue(c: char): nat
    requires IsDigit(c)
  {
    (c as int) - ('0' as int)
  }

  function DigitChar(d: nat): (c: char)
    requires d < 10
    ensures IsDigit(c) && DigitValue(c) == d
  {
    ('0' as int + d) as char
  }

  /** The number a digit string denotes. */
  function DecimalValue(s: string): nat
    requires AllDigits(s)
  {
    if |s| == 0 then 0 else DecimalValue(s[..|s| - 1]) * 10 + DigitValue(s[|s| - 1])
  }

  /** `n.toString()`: canonical decimal text, without leading zeros, that
      reads back as `n`. */
  function NatToDecimal(n: nat): (s: string)
    ensures IsDigits(s)
    ensures DecimalValue(s) == n
    ensures s[0] == '0' ==> s == "0"
    ensures |s| == 1 <==> n < 10
    ensures n < 100 ==> |s| <= 2
  {
    if n < 10 then [DigitChar(n)]
    else
      var prefix := NatToDecimal(n / 10);
      var s := prefix + [DigitChar(n % 10)];
      assert s[..|s| - 1] == prefix;
      s
  }

  /** A leading zero does not change the value. */
  lemma {:induction false} LeadingZero(s: string)
    requires AllDigits(s)
    ensures AllDigits("0" + s) && DecimalValue("0" + s) == DecimalValue(s)
  {
    if |s| > 0 {
      LeadingZero(s[..|s| - 1]);
      assert ("0" + s)[..|s|] == "0" + s[..|s| - 1];
    }
  }

  /** `s.padStart(2, '0')`. */
  function PadStart2(s: string): string {
    if |s| >= 2 then s else if |s| == 1 then "0" + s else "00"
  }

  /** `n.toString().padStart(2, '0')`: at least two digits, reading back as `n`. */
  function Pad2(n: nat): (s: string)
    ensures IsDigits(s) && |s| >= 2
    ensures DecimalValue(s) == n
    ensures n < 100 ==> |s| == 2
    ensures n >= 10 ==> s == NatToDecimal(n)
  {
    var d := NatToDecimal(n);
    LeadingZero(d);
    PadStart2(d)
  }

  // ---------------------------------------------------------------------
  // GTFS time strings

  /** The hour and minute fields of a `HH:MM[:SS]` string are digit strings. */
  predicate Parseable(t: string) {
    var f := Split(t, ':');
    |f| >= 2 && IsDigits(f[0]) && IsDigits(f[1])
  }

  /** A parseable time whose minute field is a clock-face minute. */
  predicate ClockTime(t: string) {
    Parseable(t) && MinutesOf(t) < 60
  }

  /** The (possibly extended, 24 or more) hour field. */
  function HoursOf(t: string): nat
    requires Parseable(t)
  {
    DecimalValue(Split(t, ':')[0])
  }

  function MinutesOf(t: string): nat
    requires Parseable(t)
  {
    DecimalValue(Split(t, ':')[1])
  }

  /** Whole days encoded in the hour field: `floor(hours / 24)`. */
  function DayOffset(t: string): nat
    requires Parseable(t)
  {
    HoursOf(t) / 24
  }

  /** `timeToMinutes`: hours and minutes taken verbatim, no day folding. */
  function TimeToMinutes(t: string): (m: nat)
    requires Parseable(t)
    ensures m >= DayOffset(t) * MinutesPerDay
  {
    HoursOf(t) * 60 + MinutesOf(t)
  }

  /** `normalizedTimeToMinutes`: the hour is folded onto the clock face
      (`hours % 24`) before conversion. */
  function NormalizedTimeToMinutes(t: string): (m: nat)
    requires Parseable(t)
    ensures ClockTime(t) ==> m < MinutesPerDay
  {
    (HoursOf(t) % 24) * 60 + MinutesOf(t)
  }

  /** Folding the hour removes exactly the encoded day offset. */
  lemma NormalizedIsRawLessDays(t: string)
    requires Parseable(t)
    ensures NormalizedTimeToMinutes(t) == TimeToMinutes(t) - DayOffset(t) * MinutesPerDay
    ensures DayOffset(t) == 0 <==> NormalizedTimeToMinutes(t) == TimeToMinutes(t)
  {
    var h := HoursOf(t);
    assert h == (h / 24) * 24 + h % 24;
  }

  /** `HH:MM:SS` text for the given fields, each zero-padded to two digits. */
  function RenderTime(h: nat, m: nat, s: nat): string {
    Pad2(h) + ":" + Pad2(m) + ":" + Pad2(s)
  }

  /** A digit string contains no separator character. */
  lemma DigitsExclude(s: string, c: char)
    requires AllDigits(s) && !IsDigit(c)
    ensures c !in s
  {
  }

  /** Rendered fields read back unchanged. */
  lemma RenderTimeFields(h: nat, m: nat, s: nat)
    ensures Split(RenderTime(h, m, s), ':') == [Pad2(h), Pad2(m), Pad2(s)]
  {
    DigitsExclude(Pad2(h), ':');
    DigitsExclude(Pad2(m), ':');
    DigitsExclude(Pad2(s), ':');
    var pieces := [Pad2(h), Pad2(m), Pad2(s)];
    assert Join(pieces[2..], ':') == Pad2(s);
    assert Join(pieces, ':') == RenderTime(h, m, s);
    SplitJoin(pieces, ':');
  }

  /** Parsing a rendered time gives back its hour and minute, so
      `timeToMinutes` of rendered text is `h * 60 + m`. */
  lemma {:induction false} RenderTimeParses(h: nat, m: nat, s: nat)
    ensures Parseable(RenderTime(h, m, s))
    ensures HoursOf(RenderTime(h, m, s)) == h && MinutesOf(RenderTime(h, m, s)) == m
    ensures TimeToMinutes(RenderTime(h, m, s)) == h * 60 + m
  {
    RenderTimeFields(h, m, s);
  }
}
