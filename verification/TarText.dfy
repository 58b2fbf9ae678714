/** Texts of a tar archive (kernel/src/vfs/tarfs.c, kstdio.c): octal numbers and paths. */
module TarText {
  import opened Basics

  type Text = seq<byte>

  const SLASH: byte := 0x2F
  const ZERO: byte := 0x30

  /** The C string that begins at a place; what lies behind the data reads as zero. */
  function CString(data: Text, at: nat): (s: Text)
    decreases |data| - at
  {
    if at >= |data| || data[at] == 0 then [] else [data[at]] + CString(data, at + 1)
  }

  // ----- octal numbers

  predicate IsOctal(c: byte) {
    0x30 <= c <= 0x37
  }

  function Pow8(n: nat): (p: nat)
    ensures p > 0
  {
    if n == 0 then 1 else 8 * Pow8(n - 1)
  }

  /** d << 3 * k */
  function Shifted(d: nat, k: nat): nat {
    d * Pow8(k)
  }

  /** The number the last octal digits of a text spell. */
  function OctalValue(s: Text): (n: nat)
    ensures n < Pow8(|s|)
    decreases |s|
  {
    if s == [] || !IsOctal(s[|s| - 1]) then 0
    else
      OctalValueGrows(s);
      8 * OctalValue(s[..|s| - 1]) + (s[|s| - 1] - ZERO)
  }

  lemma OctalValueGrows(s: Text)
    requires s != []
    ensures Pow8(|s|) == 8 * Pow8(|s| - 1)
  {
  }

  /** A number in k digits, zeros first. */
  function Octal(n: nat, k: nat): (s: Text)
    ensures |s| == k
    decreases k
  {
    if k == 0 then [] else Octal(n / 8, k - 1) + [(ZERO + n % 8) as byte]
  }

  lemma {:induction false} OctalIsDigits(n: nat, k: nat)
    ensures forall i :: 0 <= i < k ==> IsOctal(Octal(n, k)[i])
  {
    if k > 0 {
      OctalIsDigits(n / 8, k - 1);
    }
  }

  /** Parsing inverts zero-padded printing. */
  lemma {:induction false} OctalRoundTrip(n: nat, k: nat)
    requires n < Pow8(k)
    ensures OctalValue(Octal(n, k)) == n
  {
    if k > 0 {
      assert n / 8 < Pow8(k - 1);
      OctalRoundTrip(n / 8, k - 1);
      var s := Octal(n, k);
      assert s[..|s| - 1] == Octal(n / 8, k - 1);
    }
  }

  /** The length strlen finds, if it is below the most the field may have. */
  function FieldLength(data: Text, at: nat, maxlen: nat): (n: nat)
    ensures n <= maxlen && n <= |CString(data, at)|
  {
    if |CString(data, at)| > maxlen then maxlen else |CString(data, at)|
  }

  /** The number in a field. */
  function FieldValue(data: Text, at: nat, maxlen: nat): (n: nat)
    ensures n < Pow8(maxlen)
  {
    var s := CString(data, at)[..FieldLength(data, at, maxlen)];
    Pow8Grows(|s|, maxlen);
    OctalValue(s)
  }

  lemma {:induction false} Pow8Grows(a: nat, b: nat)
    requires a <= b
    ensures Pow8(a) <= Pow8(b)
    decreases b
  {
    if a < b {
      Pow8Grows(a, b - 1);
    }
  }

  /** A C string begins with the characters that are there up to the first NUL. */
  lemma {:induction false} CStringBegins(data: Text, at: nat, s: Text)
    requires at + |s| <= |data| && data[at..at + |s|] == s
    requires forall i :: 0 <= i < |s| ==> s[i] != 0
    ensures CString(data, at) == s + CString(data, at + |s|)
    decreases |s|
  {
    if s == [] {
      assert s + CString(data, at) == CString(data, at);
    } else {
      assert data[at] == s[0];
      assert data[at + 1..at + |s|] == data[at..at + |s|][1..];
      CStringBegins(data, at + 1, s[1..]);
      assert s == [s[0]] + s[1..];
    }
  }

  /** These characters are the field: they fill it, or a NUL or the end of the data follows. */
  predicate IsField(data: Text, at: nat, s: Text, maxlen: nat) {
    && at + |s| <= |data| && data[at..at + |s|] == s && |s| <= maxlen
    && (forall i :: 0 <= i < |s| ==> s[i] != 0)
    && (|s| == maxlen || at + |s| == |data| || data[at + |s|] == 0)
  }

  lemma FieldReads(data: Text, at: nat, s: Text, maxlen: nat)
    requires IsField(data, at, s, maxlen)
    ensures FieldLength(data, at, maxlen) == |s| && CString(data, at)[..|s|] == s
    ensures FieldValue(data, at, maxlen) == OctalValue(s)
  {
    CStringBegins(data, at, s);
  }

  /** A field written in zero-padded octal is read back, at its full width as well. */
  lemma FieldRoundTrip(data: Text, at: nat, n: nat, k: nat, maxlen: nat)
    requires n < Pow8(k) && IsField(data, at, Octal(n, k), maxlen)
    ensures FieldValue(data, at, maxlen) == n
  {
    FieldReads(data, at, Octal(n, k), maxlen);
    OctalRoundTrip(n, k);
  }

  const SPACE: byte := 0x20

  /** With spaces behind the digits, as the ustar format allows, a field is read right
      exactly if there are none or the number is zero. */
  lemma PaddedFieldIff(data: Text, at: nat, n: nat, k: nat, pad: Text, maxlen: nat)
    requires n < Pow8(k) && IsField(data, at, Octal(n, k) + pad, maxlen)
    requires forall i :: 0 <= i < |pad| ==> pad[i] == SPACE
    ensures FieldValue(data, at, maxlen) == n <==> pad == [] || n == 0
  {
    FieldReads(data, at, Octal(n, k) + pad, maxlen);
    if pad == [] {
      assert Octal(n, k) + pad == Octal(n, k);
      OctalRoundTrip(n, k);
    }
  }

  lemma {:induction false} OctalOfZero(k: nat)
    ensures Octal(0, k) == seq(k, i => ZERO)
  {
    if k > 0 {
      OctalOfZero(k - 1);
    }
  }

  /** Eleven digits that spell 15, with a space behind them: the size reads as 0. */
  lemma SpaceEndedField()
    ensures var field: Text := [0x30, 0x30, 0x30, 0x30, 0x30, 0x30, 0x30, 0x30, 0x30, 0x31, 0x37, 0x20];
            field == Octal(15, 11) + [SPACE] && FieldValue(field, 0, 12) == 0
  {
    var field: Text := [0x30, 0x30, 0x30, 0x30, 0x30, 0x30, 0x30, 0x30, 0x30, 0x31, 0x37, 0x20];
    OctalOfZero(9);
    assert Octal(1, 10) == Octal(0, 9) + [0x31] && Octal(15, 11) == Octal(1, 10) + [0x37];
    assert field == Octal(15, 11) + [SPACE];
    FieldReads(field, 0, field, 12);
  }

  /** The number the octal digits of a text from a place on spell, if all are digits. */
  lemma {:induction false} OctalValueSuffix(s: Text, i: nat)
    requires i <= |s| && forall j :: i <= j < |s| ==> IsOctal(s[j])
    ensures OctalValue(s) == OctalValue(s[..i]) * Pow8(|s| - i) + OctalValue(s[i..])
    decreases |s| - i
  {
    if i == |s| {
      assert s[..i] == s && s[i..] == [];
    } else {
      var front, back := s[..|s| - 1], s[i..];
      OctalValueSuffix(front, i);
      assert front[..i] == s[..i] && back[..|back| - 1] == front[i..] && back[|back| - 1] == s[|s| - 1];
      LastDigit(s);
      LastDigit(back);
      EightTimes(OctalValue(s[..i]), Pow8(|front| - i));
    }
  }

  lemma LastDigit(s: Text)
    requires s != [] && IsOctal(s[|s| - 1])
    ensures OctalValue(s) == 8 * OctalValue(s[..|s| - 1]) + (s[|s| - 1] - ZERO)
  {
  }

  lemma EightTimes(a: nat, p: nat)
    ensures a * (8 * p) == 8 * (a * p)
  {
  }

  /** tarfs_parse_octal: from the last digit back.  The new digit lies above all bits set so
      far, so joining it in is adding it. */
  method ParseOctal(data: Text, at: nat, maxlen: nat) returns (n: nat)
    ensures n == FieldValue(data, at, maxlen)
  {
    hide OctalValue, Pow8, CString, Shifted, FieldValue, FieldLength;
    var s := CString(data, at);
    var len := FieldLength(data, at, maxlen);
    ghost var field: Text := FieldIs(data, at, maxlen);
    n := 0;
    var i: int := len - 1;
    NothingIsZero(field[len..]);
    while i >= 0
      invariant -1 <= i < len
      invariant forall j :: i < j < len ==> IsOctal(field[j])
      invariant n == OctalValue(field[i + 1..])
    {
      var c := s[i];
      if !IsOctal(c) {
        break;
      }
      DigitBefore(field, i);
      n := n + Shifted((c - ZERO) as nat, len - i - 1);
      i := i - 1;
    }
    DigitsBehind(field, i + 1);
  }

  lemma FieldIs(data: Text, at: nat, maxlen: nat) returns (field: Text)
    ensures field == CString(data, at)[..FieldLength(data, at, maxlen)]
    ensures FieldValue(data, at, maxlen) == OctalValue(field)
  {
    field := CString(data, at)[..FieldLength(data, at, maxlen)];
  }

  lemma NothingIsZero(s: Text)
    requires s == []
    ensures OctalValue(s) == 0
  {
  }

  lemma DigitsBehind(s: Text, i: nat)
    requires i <= |s| && forall j :: i <= j < |s| ==> IsOctal(s[j])
    requires i == 0 || !IsOctal(s[i - 1])
    ensures OctalValue(s) == OctalValue(s[i..])
  {
    OctalValueSuffix(s, i);
    assert OctalValue(s[..i]) == 0;
  }

  lemma DigitBefore(s: Text, i: nat)
    requires i < |s| && IsOctal(s[i]) && forall j :: i <= j < |s| ==> IsOctal(s[j])
    ensures OctalValue(s[i..]) == Shifted((s[i] - ZERO) as nat, |s| - i - 1) + OctalValue(s[i + 1..])
  {
    var t := s[i..];
    OctalValueSuffix(t, 1);
    assert t[1..] == s[i + 1..];
    assert t[..1] == [s[i]] && [s[i]][..0] == [];
    assert OctalValue([s[i]]) == s[i] - ZERO;
  }
}
