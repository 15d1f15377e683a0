/**
 * Python string operations the core relies on: `str.split` with an explicit
 * separator, `str.join`, `str.startswith`, `int(str)`, decimal rendering of
 * integers and code-point ordering of strings.
 */
module Strings {
  import opened Types

  // ---------------------------------------------------------------------------
  // Occurrences of a separator
  // ---------------------------------------------------------------------------

  /** `sep` occurs in `s` at index `i`. */
  predicate OccursAt(s: string, sep: string, i: nat) {
    i + |sep| <= |s| && s[i..i + |sep|] == sep
  }

  predicate Contains(s: string, sep: string) {
    exists i: nat | i <= |s| :: OccursAt(s, sep, i)
  }

  /** No proper non-empty prefix of `sep` is also a suffix of it, so two
      occurrences of `sep` can never overlap. */
  predicate Unbordered(sep: string) {
    forall k :: 0 < k < |sep| ==> Border(sep, k) != sep[|sep| - k..]
  }

  function Border(sep: string, k: nat): string
    requires k <= |sep|
  {
    sep[..k]
  }

  lemma CharUnbordered(sep: string)
    requires |sep| == 1
    ensures Unbordered(sep)
  {
  }

  // ---------------------------------------------------------------------------
  // str.split(sep) and sep.join(parts)
  // ---------------------------------------------------------------------------

  /** Python's `s.split(sep)` for a non-empty separator: the pieces between
      the non-overlapping occurrences of `sep`, found from left to right. */
  function Split(s: string, sep: string): (parts: seq<string>)
    requires |sep| > 0
    ensures |parts| >= 1
    decreases |s|
  {
    if |s| < |sep| then [s]
    else if s[..|sep|] == sep then [""] + Split(s[|sep|..], sep)
    else
      var rest := Split(s[1..], sep);
      [[s[0]] + rest[0]] + rest[1..]
  }

  /** Python's `sep.join(parts)`. */
  function Join(parts: seq<string>, sep: string): string
  {
    if |parts| == 0 then ""
    else if |parts| == 1 then parts[0]
    else parts[0] + sep + Join(parts[1..], sep)
  }

  function Last(parts: seq<string>): string
    requires |parts| > 0
  {
    parts[|parts| - 1]
  }

  /** Prepending a character to the first piece prepends it to the join. */
  lemma JoinCons(c: char, p: seq<string>, sep: string)
    requires |p| > 0
    ensures Join([[c] + p[0]] + p[1..], sep) == [c] + Join(p, sep)
  {
    var q := [[c] + p[0]] + p[1..];
    if |p| > 1 {
      assert q[1..] == p[1..];
      assert Join(q, sep) == ([c] + p[0]) + sep + Join(p[1..], sep);
      assert [c] + (p[0] + sep + Join(p[1..], sep)) == ([c] + p[0]) + sep + Join(p[1..], sep);
    }
  }

  /** Joining a concatenation of two non-empty lists puts the separator
      between their joins. */
  lemma {:induction false} JoinConcat(p: seq<string>, q: seq<string>, sep: string)
    requires |p| > 0 && |q| > 0
    ensures Join(p + q, sep) == Join(p, sep) + sep + Join(q, sep)
    decreases |p|
  {
    if |p| == 1 {
      assert (p + q)[0] == p[0] && (p + q)[1..] == q;
    } else {
      assert (p + q)[0] == p[0] && (p + q)[1..] == p[1..] + q;
      JoinConcat(p[1..], q, sep);
      assert p[0] + sep + (Join(p[1..], sep) + sep + Join(q, sep))
        == (p[0] + sep + Join(p[1..], sep)) + sep + Join(q, sep);
    }
  }

  /** Joining the pieces of a split with the same separator gives back the string. */
  lemma {:induction false} JoinSplit(s: string, sep: string)
    requires |sep| > 0
    ensures Join(Split(s, sep), sep) == s
    decreases |s|
  {
    if |s| < |sep| {
    } else if s[..|sep|] == sep {
      var rest := Split(s[|sep|..], sep);
      var parts := [""] + rest;
      assert Split(s, sep) == parts;
      assert parts[0] == "" && parts[1..] == rest;
      calc {
        Join(parts, sep);
        "" + sep + Join(rest, sep);
        { JoinSplit(s[|sep|..], sep); }
        sep + s[|sep|..];
        s;
      }
    } else {
      var rest := Split(s[1..], sep);
      assert Split(s, sep) == [[s[0]] + rest[0]] + rest[1..];
      calc {
        Join([[s[0]] + rest[0]] + rest[1..], sep);
        { JoinCons(s[0], rest, sep); }
        [s[0]] + Join(rest, sep);
        { JoinSplit(s[1..], sep); }
        [s[0]] + s[1..];
        s;
      }
    }
  }

  /** The first piece of a split is a prefix of the string. */
  lemma {:induction false} FirstPieceIsPrefix(s: string, sep: string)
    requires |sep| > 0
    ensures Split(s, sep)[0] <= s
    decreases |s|
  {
    if |s| < |sep| {
    } else if s[..|sep|] == sep {
    } else {
      FirstPieceIsPrefix(s[1..], sep);
      assert s == [s[0]] + s[1..];
    }
  }

  lemma ShiftedOccurrence(c: char, p: string, sep: string, i: nat)
    requires 0 < i && OccursAt([c] + p, sep, i)
    ensures OccursAt(p, sep, i - 1)
  {
    assert ([c] + p)[i..i + |sep|] == p[i - 1..i - 1 + |sep|];
  }

  /** No piece of a split contains the separator. */
  lemma {:induction false} PiecesAreFree(s: string, sep: string)
    requires |sep| > 0
    ensures forall k :: 0 <= k < |Split(s, sep)| ==> !Contains(Split(s, sep)[k], sep)
    decreases |s|
  {
    var parts := Split(s, sep);
    if |s| < |sep| {
      forall i: nat | OccursAt(s, sep, i) ensures false { }
    } else if s[..|sep|] == sep {
      PiecesAreFree(s[|sep|..], sep);
      forall i: nat | OccursAt("", sep, i) ensures false { }
      forall k | 1 <= k < |parts| ensures !Contains(parts[k], sep) {
        assert parts[k] == Split(s[|sep|..], sep)[k - 1];
      }
    } else {
      var rest := Split(s[1..], sep);
      PiecesAreFree(s[1..], sep);
      FirstPieceIsPrefix(s[1..], sep);
      var p0 := [s[0]] + rest[0];
      assert s == [s[0]] + s[1..];
      assert p0 <= s;
      forall i: nat | i <= |p0| ensures !OccursAt(p0, sep, i) {
        if i == 0 {
          if |sep| <= |p0| {
            assert p0[..|sep|] == s[..|sep|];
          }
        } else if OccursAt(p0, sep, i) {
          ShiftedOccurrence(s[0], rest[0], sep, i);
        }
      }
      forall k | 1 <= k < |parts| ensures !Contains(parts[k], sep) {
        assert parts[k] == rest[k];
      }
    }
  }

  /** A string without the separator splits into itself alone. */
  lemma {:induction false} SplitWithoutSeparator(s: string, sep: string)
    requires |sep| > 0 && !Contains(s, sep)
    ensures Split(s, sep) == [s]
    decreases |s|
  {
    assert !OccursAt(s, sep, 0);
    if |s| < |sep| {
    } else if s[..|sep|] == sep {
    } else {
      forall i: nat | i <= |s[1..]| ensures !OccursAt(s[1..], sep, i) {
        assert !OccursAt(s, sep, i + 1);
        if i + |sep| <= |s[1..]| {
          assert s[1..][i..i + |sep|] == s[i + 1..i + 1 + |sep|];
        }
      }
      SplitWithoutSeparator(s[1..], sep);
      assert s == [s[0]] + s[1..];
    }
  }

  /** Dropping the first character keeps a string free of the separator. */
  lemma TailWithoutSeparator(a: string, sep: string)
    requires |a| > 0 && !Contains(a, sep)
    ensures !Contains(a[1..], sep)
  {
    forall i: nat | i <= |a[1..]| ensures !OccursAt(a[1..], sep, i) {
      assert !OccursAt(a, sep, i + 1);
      if i + |sep| <= |a[1..]| {
        assert a[1..][i..i + |sep|] == a[i + 1..i + 1 + |sep|];
      }
    }
  }

  /** A separator-free non-empty head followed by the separator does not
      start with an occurrence of it. */
  lemma HeadNoOccurrence(a: string, sep: string, r: string)
    requires |sep| > 0 && Unbordered(sep) && !Contains(a, sep) && |a| > 0
    ensures (a + sep + r)[..|sep|] != sep
  {
    var s := a + sep + r;
    if |a| >= |sep| {
      assert s[..|sep|] == a[..|sep|];
      assert !OccursAt(a, sep, 0);
    } else {
      var k := |sep| - |a|;
      assert s[..|sep|][|a|..] == sep[..k];
      assert Border(sep, k) != sep[|sep| - k..];
    }
  }

  /** With an unbordered separator, a separator-free head is split off exactly. */
  lemma {:induction false} SplitAfterHead(a: string, sep: string, r: string)
    requires |sep| > 0 && Unbordered(sep) && !Contains(a, sep)
    ensures Split(a + sep + r, sep) == [a] + Split(r, sep)
    decreases |a|
  {
    var s := a + sep + r;
    if |a| == 0 {
      assert s == sep + r;
      assert s[..|sep|] == sep && s[|sep|..] == r;
    } else {
      HeadNoOccurrence(a, sep, r);
      TailWithoutSeparator(a, sep);
      var tail := a[1..] + sep + r;
      assert s[1..] == tail;
      assert Split(s, sep) == [[s[0]] + Split(tail, sep)[0]] + Split(tail, sep)[1..];
      calc {
        [[s[0]] + Split(tail, sep)[0]] + Split(tail, sep)[1..];
        { SplitAfterHead(a[1..], sep, r); }
        [[a[0]] + a[1..]] + Split(r, sep);
        { assert a == [a[0]] + a[1..]; }
        [a] + Split(r, sep);
      }
    }
  }

  /** Splitting a join of separator-free pieces gives the pieces back. */
  lemma {:induction false} SplitJoin(parts: seq<string>, sep: string)
    requires |sep| > 0 && Unbordered(sep) && |parts| > 0
    requires forall k :: 0 <= k < |parts| ==> !Contains(parts[k], sep)
    ensures Split(Join(parts, sep), sep) == parts
    decreases |parts|
  {
    if |parts| == 1 {
      SplitWithoutSeparator(parts[0], sep);
    } else {
      SplitJoin(parts[1..], sep);
      SplitAfterHead(parts[0], sep, Join(parts[1..], sep));
      assert parts == [parts[0]] + parts[1..];
    }
  }

  /** For a one-character separator, splitting distributes over concatenation. */
  lemma SplitConcat(a: string, sep: string, r: string)
    requires |sep| == 1
    ensures Split(a + sep + r, sep) == Split(a, sep) + Split(r, sep)
  {
    var p, q := Split(a, sep), Split(r, sep);
    assert a + sep + r == Join(p + q, sep) by {
      JoinSplit(a, sep);
      JoinSplit(r, sep);
      JoinConcat(p, q, sep);
    }
    assert forall k :: 0 <= k < |p + q| ==> !Contains((p + q)[k], sep) by {
      PiecesAreFree(a, sep);
      PiecesAreFree(r, sep);
      forall k | 0 <= k < |p + q| ensures !Contains((p + q)[k], sep) {
        if k < |p| {
          assert (p + q)[k] == p[k];
        } else {
          assert (p + q)[k] == q[k - |p|];
        }
      }
    }
    CharUnbordered(sep);
    SplitJoin(p + q, sep);
  }

  /** A one-character separator occurs exactly where its character does. */
  lemma CharContains(s: string, c: char)
    ensures Contains(s, [c]) <==> c in s
  {
    if c in s {
      var i :| 0 <= i < |s| && s[i] == c;
      assert OccursAt(s, [c], i);
    } else {
      forall i: nat | i <= |s| ensures !OccursAt(s, [c], i) {
        if i + 1 <= |s| {
          assert s[i..i + 1] == [s[i]];
        }
      }
    }
  }

  /** The separator-free pieces that a split of two pieces consists of. */
  lemma SplitInTwo(s: string, sep: string)
    requires |sep| > 0 && |Split(s, sep)| == 2
    ensures s == Split(s, sep)[0] + sep + Split(s, sep)[1]
    ensures !Contains(Split(s, sep)[0], sep) && !Contains(Split(s, sep)[1], sep)
  {
    JoinSplit(s, sep);
    PiecesAreFree(s, sep);
    assert Split(s, sep)[1..] == [Split(s, sep)[1]];
  }

  /** Joining is appending the last piece after the join of the others. */
  lemma {:induction false} JoinSnoc(parts: seq<string>, sep: string)
    requires |parts| >= 2
    ensures Join(parts, sep) == Join(parts[..|parts| - 1], sep) + sep + Last(parts)
    decreases |parts|
  {
    if |parts| > 2 {
      JoinSnoc(parts[1..], sep);
      assert parts[1..][..|parts| - 2] == parts[..|parts| - 1][1..];
    }
  }

  /** The last piece of a split is what follows the last separator: a
      suffix of the string, free of the separator, and either the whole
      string or preceded by the separator. */
  lemma LastPiece(s: string, sep: string)
    requires |sep| > 0
    ensures var p := Last(Split(s, sep));
      && !Contains(p, sep)
      && (p == s || exists h :: s == h + sep + p)
  {
    var parts := Split(s, sep);
    JoinSplit(s, sep);
    PiecesAreFree(s, sep);
    if |parts| >= 2 {
      JoinSnoc(parts, sep);
    }
  }

  // ---------------------------------------------------------------------------
  // Code-point ordering of strings (Python's `<` on str)
  // ---------------------------------------------------------------------------

  predicate Less(a: string, b: string)
    decreases |a|
  {
    if |a| == 0 then |b| > 0
    else if |b| == 0 then false
    else a[0] < b[0] || (a[0] == b[0] && Less(a[1..], b[1..]))
  }

  lemma {:induction false} LessIrreflexive(a: string)
    ensures !Less(a, a)
    decreases |a|
  {
    if |a| > 0 { LessIrreflexive(a[1..]); }
  }

  lemma {:induction false} LessTransitive(a: string, b: string, c: string)
    requires Less(a, b) && Less(b, c)
    ensures Less(a, c)
    decreases |a|
  {
    if |a| > 0 && |b| > 0 && |c| > 0 && a[0] == b[0] == c[0] {
      LessTransitive(a[1..], b[1..], c[1..]);
    }
  }

  lemma {:induction false} LessTotal(a: string, b: string)
    ensures a == b || Less(a, b) || Less(b, a)
    decreases |a|
  {
    if |a| > 0 && |b| > 0 && a[0] == b[0] {
      LessTotal(a[1..], b[1..]);
      if a[1..] == b[1..] {
        assert a == [a[0]] + a[1..] && b == [b[0]] + b[1..];
      }
    }
  }

  lemma {:induction false} LessAsymmetric(a: string, b: string)
    requires Less(a, b)
    ensures !Less(b, a)
  {
    if Less(b, a) {
      LessTransitive(a, b, a);
      LessIrreflexive(a);
    }
  }

  // ---------------------------------------------------------------------------
  // Decimal rendering and int(str)
  // ---------------------------------------------------------------------------

  predicate IsDigit(c: char) {
    '0' <= c <= '9'
  }

  predicate AllDigits(s: string) {
    forall i :: 0 <= i < |s| ==> IsDigit(s[i])
  }

  function DigitChar(d: nat): (c: char)
    requires d < 10
    ensures IsDigit(c)
  {
    (48 + d) as char
  }

  function DigitValue(c: char): (d: nat)
    requires IsDigit(c)
    ensures d < 10
  {
    c as nat - 48
  }

  /** The decimal digits of `n`, as Python's `str(n)` renders them. */
  function NatToString(n: nat): (s: string)
    ensures |s| > 0 && AllDigits(s)
  {
    if n < 10 then [DigitChar(n)]
    else NatToString(n / 10) + [DigitChar(n % 10)]
  }

  /** `n` rendered in decimal and left-padded with zeros to `width` characters. */
  function Padded(n: nat, width: nat): (s: string)
    ensures |s| >= width && AllDigits(s)
  {
    var digits := NatToString(n);
    if |digits| >= width then digits
    else seq(width - |digits|, _ => '0') + digits
  }

  /** The value of a string of decimal digits. */
  function DigitsValue(s: string): nat
    requires AllDigits(s)
  {
    if |s| == 0 then 0
    else DigitsValue(s[..|s| - 1]) * 10 + DigitValue(s[|s| - 1])
  }

  lemma {:induction false} DigitsValueOfNatToString(n: nat)
    ensures DigitsValue(NatToString(n)) == n
  {
    if n >= 10 {
      var s := NatToString(n);
      DigitsValueOfNatToString(n / 10);
      assert s[..|s| - 1] == NatToString(n / 10);
    }
  }

  /** The characters Python's `str.isspace` accepts: the ASCII controls 9-13
      and 28-31, the space, and the Unicode separators and spaces. */
  predicate IsSpace(c: char) {
    var k := c as int;
    || 9 <= k <= 13 || 28 <= k <= 32 || k == 0x85 || k == 0xA0 || k == 0x1680
    || 0x2000 <= k <= 0x200A || k == 0x2028 || k == 0x2029 || k == 0x202F || k == 0x205F || k == 0x3000
  }

  /** Python's `s.strip()`: leading and trailing whitespace removed. */
  function Strip(s: string): (t: string)
    ensures |t| <= |s|
    ensures |t| > 0 ==> !IsSpace(t[0]) && !IsSpace(t[|t| - 1])
    decreases |s|
  {
    if |s| == 0 then s
    else if IsSpace(s[0]) then Strip(s[1..])
    else if IsSpace(s[|s| - 1]) then Strip(s[..|s| - 1])
    else s
  }

  /** Trimming removes only whitespace: every other character stays. */
  lemma {:induction false} StripKeepsNonSpace(s: string, c: char)
    requires c in s && !IsSpace(c)
    ensures c in Strip(s)
    decreases |s|
  {
    if IsSpace(s[0]) {
      assert c in s[1..];
      StripKeepsNonSpace(s[1..], c);
    } else if IsSpace(s[|s| - 1]) {
      assert c in s[..|s| - 1];
      StripKeepsNonSpace(s[..|s| - 1], c);
    }
  }

  /** Python's `int(s)` for a decimal string with an optional sign and
      surrounding whitespace; `None` where Python raises `ValueError`. */
  function ParseInt(s: string): (r: Option<int>)
  {
    var t := Strip(s);
    if |t| == 0 then None
    else if t[0] == '-' || t[0] == '+' then
      var digits := t[1..];
      if |digits| == 0 || !AllDigits(digits) then None
      else if t[0] == '-' then Some(0 - DigitsValue(digits))
      else Some(DigitsValue(digits))
    else if AllDigits(t) then Some(DigitsValue(t))
    else None
  }

  /** `int(str(n)) == n` and `int("-" + str(n)) == -n`. */
  lemma ParseIntRoundTrip(n: nat)
    ensures ParseInt(NatToString(n)) == Some(n)
    ensures ParseInt("-" + NatToString(n)) == Some(0 - n)
  {
    var s := NatToString(n);
    DigitsValueOfNatToString(n);
    assert !IsSpace(s[0]) && !IsSpace(s[|s| - 1]);
    var m := "-" + s;
    assert m[1..] == s;
    assert !IsSpace(m[0]) && !IsSpace(m[|m| - 1]);
  }
}
