/** The JavaScript string operations the signature verifier relies on:
    `String.prototype.split` with a one-character separator, its inverse, and
    the decimal part of `parseInt`. */
module Text {
  import opened Wrappers

  /** `s.split(d)`: the pieces of `s` between occurrences of `d`, in order.
      As in JavaScript there is always at least one piece (`"".split(",")` is `[""]`). */
  function Split(s: string, d: char): (pieces: seq<string>)
    ensures |pieces| >= 1
  {
    if |s| == 0 then [""]
    else
      var rest := Split(s[1..], d);
      if s[0] == d then [""] + rest else [[s[0]] + rest[0]] + rest[1..]
  }

  /** `pieces.join(d)`: the pieces with one `d` between neighbours. */
  function Join(pieces: seq<string>, d: char): string
    requires |pieces| >= 1
  {
    if |pieces| == 1 then pieces[0] else pieces[0] + [d] + Join(pieces[1..], d)
  }

  /** No piece of a split contains the separator. */
  lemma {:induction false} SplitPiecesFree(s: string, d: char)
    ensures forall i :: 0 <= i < |Split(s, d)| ==> d !in Split(s, d)[i]
  {
    if |s| > 0 {
      var rest := Split(s[1..], d);
      SplitPiecesFree(s[1..], d);
      if s[0] != d {
        var pieces := [[s[0]] + rest[0]] + rest[1..];
        assert Split(s, d) == pieces;
        forall i | 0 <= i < |pieces| ensures d !in pieces[i] {
          if i > 0 {
            assert pieces[i] == rest[i];
          }
        }
      }
    }
  }

  /** Splitting loses nothing: joining the pieces gives back the string, and no
      piece contains the separator. */
  lemma {:induction false} JoinSplit(s: string, d: char)
    ensures Join(Split(s, d), d) == s
    ensures forall i :: 0 <= i < |Split(s, d)| ==> d !in Split(s, d)[i]
  {
    SplitPiecesFree(s, d);
    if |s| > 0 {
      var rest := Split(s[1..], d);
      JoinSplit(s[1..], d);
      if s[0] == d {
        assert Split(s, d) == [""] + rest;
        assert ([""] + rest)[1..] == rest;
        assert s == [d] + s[1..];
      } else {
        var pieces := [[s[0]] + rest[0]] + rest[1..];
        assert Split(s, d) == pieces;
        assert s == [s[0]] + s[1..];
        if |rest| > 1 {
          assert pieces[1..] == rest[1..];
          assert Join(rest, d) == rest[0] + [d] + Join(rest[1..], d);
        }
      }
    }
  }

  /** A string without the separator splits into itself alone. */
  lemma {:induction false} SplitWithoutSeparator(s: string, d: char)
    requires d !in s
    ensures Split(s, d) == [s]
  {
    if |s| > 0 {
      SplitWithoutSeparator(s[1..], d);
      assert s == [s[0]] + s[1..];
    }
  }

  /** Splitting at the first separator: the text before it is the first piece. */
  lemma {:induction false} SplitAtFirst(a: string, b: string, d: char)
    requires d !in a
    ensures Split(a + [d] + b, d) == [a] + Split(b, d)
  {
    var s := a + [d] + b;
    if |a| == 0 {
      assert s[1..] == b;
    } else {
      SplitAtFirst(a[1..], b, d);
      assert s[1..] == a[1..] + [d] + b;
      assert a == [a[0]] + a[1..];
    }
  }

  /** Splitting undoes joining whenever no piece contains the separator. */
  lemma {:induction false} SplitJoin(pieces: seq<string>, d: char)
    requires |pieces| >= 1
    requires forall i :: 0 <= i < |pieces| ==> d !in pieces[i]
    ensures Split(Join(pieces, d), d) == pieces
  {
    if |pieces| == 1 {
      SplitWithoutSeparator(pieces[0], d);
    } else {
      assert d !in pieces[0];
      SplitJoin(pieces[1..], d);
      SplitAtFirst(pieces[0], Join(pieces[1..], d), d);
    }
  }

  /** The first piece of a split is the text before the first separator; when there
      is a separator, the other pieces are the split of what follows it. */
  lemma SplitFirstPiece(s: string, d: char)
    ensures var first := Split(s, d)[0];
      && d !in first && |first| <= |s| && s[..|first|] == first
      && (|first| < |s| <==> d in s) && (|first| < |s| <==> |Split(s, d)| > 1)
      && (|first| < |s| ==> s[|first|] == d && Split(s, d) == [first] + Split(s[|first| + 1..], d))
  {
    var pieces := Split(s, d);
    JoinSplit(s, d);
    if |pieces| > 1 {
      var tail := Join(pieces[1..], d);
      assert s == pieces[0] + [d] + tail;
      assert s[..|pieces[0]|] == pieces[0];
      assert s[|pieces[0]| + 1..] == tail;
      assert forall i :: 0 <= i < |pieces[1..]| ==> d !in pieces[1..][i] by {
        forall i | 0 <= i < |pieces[1..]| ensures d !in pieces[1..][i] {
          assert pieces[1..][i] == pieces[i + 1];
        }
      }
      SplitJoin(pieces[1..], d);
      assert pieces == [pieces[0]] + pieces[1..];
    } else {
      assert s == pieces[0];
    }
  }

  predicate IsDigit(c: char) {
    '0' <= c <= '9'
  }

  /** The longest prefix of `s` made of decimal digits. */
  function LeadingDigits(s: string): (ds: string)
    ensures |ds| <= |s| && ds == s[..|ds|]
    ensures forall i :: 0 <= i < |ds| ==> IsDigit(ds[i])
    ensures |ds| < |s| ==> !IsDigit(s[|ds|])
  {
    if |s| > 0 && IsDigit(s[0]) then [s[0]] + LeadingDigits(s[1..]) else ""
  }

  predicate IsDigits(s: string) {
    forall i :: 0 <= i < |s| ==> IsDigit(s[i])
  }

  /** The number a string of decimal digits denotes. */
  function DecimalValue(ds: string): nat
    requires IsDigits(ds)
  {
    if |ds| == 0 then 0
    else 10 * DecimalValue(ds[..|ds| - 1]) + (ds[|ds| - 1] as int - '0' as int)
  }

  /** The value of the digits at the start of `s`, `None` when there are none. */
  function LeadingValue(s: string): Option<nat> {
    var ds := LeadingDigits(s);
    if |ds| == 0 then None else Some(DecimalValue(ds))
  }

  /** `parseInt(s)` in base 10: an optional sign and the digits that follow it;
      `None` stands for `NaN`, the result when no digit follows. */
  function ParseInt(s: string): (n: Option<int>)
    ensures (|s| == 0 || (!IsDigit(s[0]) && s[0] != '-' && s[0] != '+')) ==> n == None
  {
    if |s| > 0 && s[0] == '-' then
      match LeadingValue(s[1..])
      case Some(v) => Some(-(v as int))
      case None => None
    else
      var unsigned := if |s| > 0 && s[0] == '+' then s[1..] else s;
      match LeadingValue(unsigned)
      case Some(v) => Some(v as int)
      case None => None
  }

  lemma {:induction false} LeadingDigitsOf(ds: string, rest: string)
    requires IsDigits(ds)
    requires |rest| == 0 || !IsDigit(rest[0])
    ensures LeadingDigits(ds + rest) == ds
  {
    if |ds| > 0 {
      LeadingDigitsOf(ds[1..], rest);
      assert (ds + rest)[1..] == ds[1..] + rest;
      assert ds == [ds[0]] + ds[1..];
    }
  }

  /** The digits at the start of `ds + rest`, when `rest` does not start with a digit,
      are those of `ds`. */
  lemma LeadingValueOf(ds: string, rest: string)
    requires |ds| > 0 && IsDigits(ds)
    requires |rest| == 0 || !IsDigit(rest[0])
    ensures LeadingValue(ds + rest) == Some(DecimalValue(ds))
  {
    LeadingDigitsOf(ds, rest);
  }

  /** A leading sign is read off and the digits after it give the magnitude. */
  lemma ParseIntSigned(sign: char, unsigned: string)
    requires sign == '+' || sign == '-'
    ensures ParseInt([sign] + unsigned) == match LeadingValue(unsigned)
      case Some(v) => Some(if sign == '-' then -(v as int) else v as int)
      case None => None
  {
    assert ([sign] + unsigned)[1..] == unsigned;
  }

  /** `parseInt` of decimal digits followed by anything that is not a digit is the
      value of those digits; with a sign in front, `ParseIntSigned` applies. */
  lemma ParseIntOfDigits(ds: string, rest: string)
    requires |ds| > 0 && IsDigits(ds)
    requires |rest| == 0 || !IsDigit(rest[0])
    ensures ParseInt(ds + rest) == Some(DecimalValue(ds) as int)
  {
    LeadingValueOf(ds, rest);
    assert IsDigit(ds[0]);
    assert (ds + rest)[0] == ds[0];
  }
}
