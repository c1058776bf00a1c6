/** The packing of the operator's feedback line into a judge value, the
    pure expression inside the interactive loop of `main`: the line must be
    five bytes long, and the digit at position `i` is shifted into the
    two-bit field starting at bit `2 * i`. */
module Feedback {
  import opened Results

  /** Number of positions of a feedback line. */
  const Positions: nat := 5

  /** Why a feedback line is refused. */
  datatype FeedbackError =
    | WrongLength(bytes: nat)      // the `s.len() == 5` assertion
    | NotADigit(position: nat)     // `to_digit(10)` returned `None`
    | FieldOverflow(position: nat) // a digit that does not fit its two-bit field

  /** Bytes `c` occupies in UTF-8, which is what `String::len` counts. */
  function Utf8Width(c: char): nat
  {
    if c as int < 0x80 then 1
    else if c as int < 0x800 then 2
    else if c as int < 0x10000 then 3
    else 4
  }

  /** The UTF-8 length of `s` in bytes; it equals the number of characters
      exactly when every character is ASCII. */
  function Utf8Len(s: string): (n: nat)
    ensures n >= |s|
    ensures n == |s| <==> forall i :: 0 <= i < |s| ==> s[i] as int < 0x80
  {
    if s == [] then 0
    else
      var n := Utf8Width(s[0]) + Utf8Len(s[1..]);
      assert forall i :: 1 <= i < |s| ==> s[i] == s[1..][i - 1];
      n
  }

  /** `2^n`, the factor of a left shift by `n`. */
  function Pow2(n: nat): (p: nat)
    ensures p >= 1
  {
    if n == 0 then 1 else 2 * Pow2(n - 1)
  }

  /** `x << n` on values that do not overflow. */
  function Shl(x: nat, n: nat): nat
  {
    x * Pow2(n)
  }

  /** The decimal digits of `s`, each required to be below `limit`; the
      first character that is not an ASCII decimal digit, or whose value is
      not below `limit`, is reported. */
  function Digits(s: string, limit: nat): (r: Result<seq<nat>, FeedbackError>)
    ensures r.Success? ==> |r.value| == |s| && forall i :: 0 <= i < |s| ==>
      '0' <= s[i] <= '9' && r.value[i] == s[i] as int - '0' as int && r.value[i] < limit
    ensures r.Failure? ==> !r.error.WrongLength? && r.error.position < |s|
    ensures r.Failure? && r.error.NotADigit? ==> !('0' <= s[r.error.position] <= '9')
    ensures r.Failure? && r.error.FieldOverflow? ==>
      '0' <= s[r.error.position] <= '9' && s[r.error.position] as int - '0' as int >= limit
    ensures r.Failure? ==> forall i :: 0 <= i < r.error.position ==>
      '0' <= s[i] <= '9' && s[i] as int - '0' as int < limit
  {
    if s == [] then Success([])
    else if !('0' <= s[0] <= '9') then Failure(NotADigit(0))
    else if s[0] as int - '0' as int >= limit then Failure(FieldOverflow(0))
    else
      match Digits(s[1..], limit)
      case Failure(e) =>
        Failure(if e.NotADigit? then NotADigit(e.position + 1) else FieldOverflow(e.position + 1))
      case Success(ds) =>
        assert forall i :: 1 <= i < |s| ==> s[i] == s[1..][i - 1];
        Success([s[0] as int - '0' as int] + ds)
  }

  /** `sum over i of ds[i] << 2*i`. */
  function Packed(ds: seq<nat>): nat
  {
    if ds == [] then 0
    else Packed(ds[..|ds| - 1]) + Shl(ds[|ds| - 1], 2 * (|ds| - 1))
  }

  /** Reads `n` two-bit fields of `j`, lowest first. */
  function Unpack(j: nat, n: nat): (ds: seq<nat>)
    ensures |ds| == n
    ensures forall i :: 0 <= i < n ==> ds[i] < 4
  {
    if n == 0 then [] else [j % 4] + Unpack(j / 4, n - 1)
  }

  /** The packing as written: five bytes, then every decimal digit is
      shifted into place, whatever its value. */
  function PackAsWritten(s: string): Result<nat, FeedbackError>
  {
    Pack(s, 10)
  }

  /** The packing with each digit required to fit its two-bit field. */
  function PackChecked(s: string): Result<nat, FeedbackError>
  {
    Pack(s, 4)
  }

  /** Length check first, then the digits in order, then the sum. */
  function Pack(s: string, limit: nat): (r: Result<nat, FeedbackError>)
    ensures Utf8Len(s) != Positions ==> r == Failure(WrongLength(Utf8Len(s)))
    ensures r.Success? ==> |s| == Positions && Digits(s, limit).Success? && r.value == Packed(Digits(s, limit).value)
    ensures Utf8Len(s) == Positions && (forall i :: 0 <= i < |s| ==> '0' <= s[i] <= '9' && s[i] as int - '0' as int < limit) ==>
      r.Success?
    ensures Utf8Len(s) == Positions && r.Failure? ==> (
      && !r.error.WrongLength?
      && r.error.position < |s|
      && (forall i :: 0 <= i < r.error.position ==> '0' <= s[i] <= '9' && s[i] as int - '0' as int < limit)
      && !('0' <= s[r.error.position] <= '9' && s[r.error.position] as int - '0' as int < limit))
  {
    if Utf8Len(s) != Positions then Failure(WrongLength(Utf8Len(s)))
    else
      match Digits(s, limit)
      case Failure(e) => Failure(e)
      case Success(ds) => Success(Packed(ds))
  }

  lemma Pow2Step(i: nat)
    ensures Pow2(2 * (i + 1)) == 4 * Pow2(2 * i)
  {
    assert Pow2(2 * i + 2) == 2 * Pow2(2 * i + 1);
  }

  /** The shifted sum read from the lowest field: the first digit plus four
      times the packing of the rest. */
  lemma {:induction false} PackedHorner(ds: seq<nat>)
    requires ds != []
    ensures Packed(ds) == ds[0] + 4 * Packed(ds[1..])
  {
    var n := |ds|;
    if n == 1 {
      assert ds[..0] == [];
    } else {
      var init := ds[..n - 1];
      PackedHorner(init);
      assert init[1..] == ds[1..][..n - 2];
      Pow2Step(n - 2);
      assert Shl(ds[n - 1], 2 * (n - 1)) == 4 * Shl(ds[n - 1], 2 * (n - 2));
    }
  }

  /** Digits below 4 are recovered from their packing, and the packing stays
      below `4^n`. */
  lemma {:induction false} UnpackPacked(ds: seq<nat>)
    requires forall i :: 0 <= i < |ds| ==> ds[i] < 4
    ensures Packed(ds) < Pow2(2 * |ds|)
    ensures Unpack(Packed(ds), |ds|) == ds
  {
    if ds != [] {
      var rest := ds[1..];
      UnpackPacked(rest);
      PackedHorner(ds);
      Pow2Step(|rest|);
      FieldSplit(ds[0], Packed(rest));
      assert ds == [ds[0]] + rest;
    }
  }

  /** The lowest field of `d + 4 * q` is `d` when `d` fits in it. */
  lemma FieldSplit(d: nat, q: nat)
    requires d < 4
    ensures (d + 4 * q) % 4 == d && (d + 4 * q) / 4 == q
  {
  }

  /** Decimal digits pack to at most `3 * (4^n - 1)`: five positions give at
      most 3069, so the `u32` sum never overflows and fits twelve bits. */
  lemma {:induction false} PackedBound(ds: seq<nat>)
    requires forall i :: 0 <= i < |ds| ==> ds[i] <= 9
    ensures Packed(ds) <= 3 * (Pow2(2 * |ds|) - 1)
  {
    if ds != [] {
      PackedBound(ds[1..]);
      PackedHorner(ds);
      Pow2Step(|ds| - 1);
    }
  }

  /** A packed feedback line is at most 3069. */
  lemma PackAsWrittenBound(s: string)
    requires PackAsWritten(s).Success?
    ensures PackAsWritten(s).value <= 3069
  {
    var ds := Digits(s, 10).value;
    PackedBound(ds);
    assert Pow2(10) == 1024;
  }

  /** Two different feedback lines that the packing as written maps to the
      same judge: the digit 4 overflows the first field into the second. */
  lemma PackAsWrittenAliases()
    ensures "40000" != "01000"
    ensures PackAsWritten("40000") == PackAsWritten("01000") == Success(4)
  {
    AliasLines("40000", "01000");
  }

  /** The two aliasing lines, passed in so that their packing is worked
      out step by step rather than by unrolling the literals. */
  lemma AliasLines(s1: string, s2: string)
    requires s1 == "40000" && s2 == "01000"
    ensures s1 != s2
    ensures PackAsWritten(s1) == PackAsWritten(s2) == Success(4)
  {
    assert s1[0] != s2[0];
    DigitsOfLine(s1, [4, 0, 0, 0, 0]);
    DigitsOfLine(s2, [0, 1, 0, 0, 0]);
    AliasSums();
    assert forall i :: 0 <= i < |s1| ==> s1[i] as int < 0x80;
    assert forall i :: 0 <= i < |s2| ==> s2[i] as int < 0x80;
  }

  /** A line of decimal digits is read as their values. */
  lemma {:induction false} DigitsOfLine(s: string, ds: seq<nat>)
    requires |s| == |ds|
    requires forall i :: 0 <= i < |s| ==> '0' <= s[i] <= '9' && ds[i] == s[i] as int - '0' as int
    ensures Digits(s, 10) == Success(ds)
  {
    if s != [] {
      DigitsOfLine(s[1..], ds[1..]);
      assert ds == [ds[0]] + ds[1..];
    }
  }

  lemma AliasSums()
    ensures Packed([4, 0, 0, 0, 0]) == 4
    ensures Packed([0, 1, 0, 0, 0]) == 4
  {
    PackedZeros([0, 0, 0]);
    PackedZeros([0, 0, 0, 0]);
    PackedHorner([4, 0, 0, 0, 0]);
    assert [4, 0, 0, 0, 0][1..] == [0, 0, 0, 0];
    PackedHorner([1, 0, 0, 0]);
    assert [1, 0, 0, 0][1..] == [0, 0, 0];
    PackedHorner([0, 1, 0, 0, 0]);
    assert [0, 1, 0, 0, 0][1..] == [1, 0, 0, 0];
  }

  /** Zero digits pack to zero. */
  lemma {:induction false} PackedZeros(ds: seq<nat>)
    requires forall i :: 0 <= i < |ds| ==> ds[i] == 0
    ensures Packed(ds) == 0
  {
    if ds != [] {
      PackedZeros(ds[..|ds| - 1]);
    }
  }

  /** With every digit confined to its field, the judge determines the
      feedback line: unpacking gives back each digit, and two accepted lines
      with the same judge are the same line. */
  lemma PackCheckedRoundTrip(s: string)
    requires PackChecked(s).Success?
    ensures PackChecked(s).value < 1024
    ensures Unpack(PackChecked(s).value, Positions) == Digits(s, 4).value
  {
    UnpackPacked(Digits(s, 4).value);
    assert Pow2(10) == 1024;
  }

  lemma PackCheckedInjective(s1: string, s2: string)
    requires PackChecked(s1).Success? && PackChecked(s2).Success?
    requires PackChecked(s1).value == PackChecked(s2).value
    ensures s1 == s2
  {
    PackCheckedRoundTrip(s1);
    PackCheckedRoundTrip(s2);
    DigitsInjective(s1, s2, 4);
  }

  /** Lines with the same digits are the same line. */
  lemma DigitsInjective(s1: string, s2: string, limit: nat)
    requires Digits(s1, limit).Success? && Digits(s2, limit).Success?
    requires Digits(s1, limit).value == Digits(s2, limit).value
    ensures s1 == s2
  {
    var ds := Digits(s1, limit).value;
    forall i | 0 <= i < |s1|
      ensures s1[i] == s2[i]
    {
      assert s1[i] as int == ds[i] + '0' as int == s2[i] as int;
    }
  }

  /** The correction only refuses lines; a line it accepts packs exactly as
      written. */
  lemma PackCheckedAgrees(s: string)
    requires PackChecked(s).Success?
    ensures PackAsWritten(s) == PackChecked(s)
  {
    var ds := Digits(s, 4).value;
    assert Digits(s, 10) == Success(ds) by {
      DigitsMonotone(s, 4, 10);
    }
  }

  /** Raising the digit limit keeps every accepted line's digits. */
  lemma {:induction false} DigitsMonotone(s: string, lo: nat, hi: nat)
    requires lo <= hi
    requires Digits(s, lo).Success?
    ensures Digits(s, hi) == Digits(s, lo)
  {
    if s != [] {
      DigitsMonotone(s[1..], lo, hi);
    }
  }
}
