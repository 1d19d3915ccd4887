/** The number of a patch file, read from the decimal digits its name starts
    with (`parse_patch_num`). */
module PatchNumbers {

  /** `ord(ch) - ord('0')` lies in 0..9: an ASCII digit, nothing else. */
  predicate IsDigit(c: char)
  {
    '0' <= c <= '9'
  }

  function DigitValue(c: char): (d: nat)
    requires IsDigit(c)
    ensures d < 10
  {
    c as int - '0' as int
  }

  predicate AllDigits(s: string)
  {
    forall k :: 0 <= k < |s| ==> IsDigit(s[k])
  }

  /** Length of the longest run of digits `s` starts with. */
  function LeadingDigits(s: string): (n: nat)
    ensures n <= |s|
    ensures forall k :: 0 <= k < n ==> IsDigit(s[k])
    ensures n < |s| ==> !IsDigit(s[n])
    decreases |s|
  {
    if s == [] || !IsDigit(s[0]) then 0 else 1 + LeadingDigits(s[1..])
  }

  /** The value of a string of digits read as a decimal numeral, most
      significant digit first; the empty string reads as 0. */
  function DecimalValue(ds: string): nat
    requires AllDigits(ds)
    decreases |ds|
  {
    if ds == [] then 0 else DecimalValue(ds[..|ds| - 1]) * 10 + DigitValue(ds[|ds| - 1])
  }

  /** The patch number of a file name: the value of its leading digits. */
  function PatchNum(name: string): nat
  {
    DecimalValue(name[..LeadingDigits(name)])
  }

  /** `parse_patch_num`: accumulate `digit + patch_num * 10` over the name
      until the first character that is not a digit. */
  method ParsePatchNum(fileName: string) returns (patchNum: nat)
    ensures patchNum == PatchNum(fileName)
  {
    patchNum := 0;
    var i := 0;
    while i < |fileName|
      invariant i <= |fileName|
      invariant forall k :: 0 <= k < i ==> IsDigit(fileName[k])
      invariant patchNum == DecimalValue(fileName[..i])
    {
      var digit := fileName[i] as int - '0' as int;
      if digit < 0 || digit > 9 {
        break;
      }
      assert fileName[..i + 1][..i] == fileName[..i];
      patchNum := digit + patchNum * 10;
      i := i + 1;
    }
    LeadingDigitsAt(fileName, i);
  }

  /** A digit run that ends at the end of `s` or at a non-digit is the longest one. */
  lemma LeadingDigitsAt(s: string, n: nat)
    requires n <= |s|
    requires forall k :: 0 <= k < n ==> IsDigit(s[k])
    requires n < |s| ==> !IsDigit(s[n])
    ensures LeadingDigits(s) == n
  {
  }

  /** Characters after the first non-digit never affect the patch number. */
  lemma PatchNumStopsAtNonDigit(digits: string, c: char, rest: string)
    requires AllDigits(digits) && !IsDigit(c)
    ensures PatchNum(digits + [c] + rest) == DecimalValue(digits)
    ensures PatchNum(digits) == DecimalValue(digits)
  {
    var s := digits + [c] + rest;
    LeadingDigitsAt(s, |digits|);
    assert s[..|digits|] == digits;
    LeadingDigitsAt(digits, |digits|);
    assert digits[..|digits|] == digits;
  }

  /** A name that does not start with a digit has patch number 0. */
  lemma PatchNumWithoutDigits(name: string)
    requires name == [] || !IsDigit(name[0])
    ensures PatchNum(name) == 0
  {
    assert name[..0] == [];
  }

  function DigitChar(d: nat): (c: char)
    requires d < 10
    ensures IsDigit(c) && DigitValue(c) == d
  {
    ('0' as int + d) as char
  }

  /** The shortest decimal numeral for `n`. */
  function Decimal(n: nat): (ds: string)
    ensures |ds| > 0 && AllDigits(ds)
    decreases n
  {
    if n < 10 then [DigitChar(n)] else Decimal(n / 10) + [DigitChar(n % 10)]
  }

  /** Reading a numeral back gives the number it was written from. */
  lemma {:induction false} DecimalRoundTrip(n: nat)
    ensures DecimalValue(Decimal(n)) == n
    decreases n
  {
    var ds := Decimal(n);
    if n < 10 {
      assert ds[..0] == [];
    } else {
      DecimalRoundTrip(n / 10);
      assert ds[..|ds| - 1] == Decimal(n / 10);
    }
  }

  /** A leading zero does not change the value of a numeral. */
  lemma {:induction false} LeadingZeroIgnored(ds: string)
    requires AllDigits(ds)
    ensures DecimalValue(['0'] + ds) == DecimalValue(ds)
    decreases |ds|
  {
    var zs := ['0'] + ds;
    if ds == [] {
      assert zs[..0] == [];
    } else {
      LeadingZeroIgnored(ds[..|ds| - 1]);
      assert zs[..|zs| - 1] == ['0'] + ds[..|ds| - 1];
    }
  }

  /** A name made of a numeral for `n`, with any leading zeros, followed by
      nothing or by a non-digit, has patch number `n`. */
  lemma PatchNumOfNumeral(zeros: nat, n: nat, suffix: string)
    requires suffix == [] || !IsDigit(suffix[0])
    ensures PatchNum(Zeros(zeros) + Decimal(n) + suffix) == n
  {
    var ds := Zeros(zeros) + Decimal(n);
    assert AllDigits(ds);
    var s := ds + suffix;
    LeadingDigitsAt(s, |ds|);
    assert s[..|ds|] == ds;
    ZerosIgnored(zeros, Decimal(n));
    DecimalRoundTrip(n);
  }

  /** Any number of leading zeros leaves the value of a numeral unchanged. */
  lemma {:induction false} ZerosIgnored(zeros: nat, ds: string)
    requires AllDigits(ds)
    ensures AllDigits(Zeros(zeros) + ds)
    ensures DecimalValue(Zeros(zeros) + ds) == DecimalValue(ds)
    decreases zeros
  {
    if zeros == 0 {
      assert Zeros(0) + ds == ds;
    } else {
      ZerosIgnored(zeros - 1, ds);
      assert Zeros(zeros) + ds == ['0'] + (Zeros(zeros - 1) + ds);
      LeadingZeroIgnored(Zeros(zeros - 1) + ds);
    }
  }

  function Zeros(k: nat): (zs: string)
    ensures |zs| == k && forall i :: 0 <= i < k ==> zs[i] == '0'
  {
    seq(k, _ => '0')
  }

  /** Three example names. */
  lemma PatchNumExamples()
    ensures PatchNum("007_x.patch") == 7
    ensures PatchNum("fix.patch") == 0
    ensures PatchNum("") == 0
  {
    PatchNumOfNumeral(2, 7, "_x.patch");
    assert Zeros(2) + Decimal(7) + "_x.patch" == "007_x.patch";
    PatchNumWithoutDigits("fix.patch");
    PatchNumWithoutDigits("");
  }
}
