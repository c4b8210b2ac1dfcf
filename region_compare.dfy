/** The region comparison: name the memory region of a small and of a large
    buffer from the addresses the board reports, run the speed test only
    when the two names differ, and say which buffer was faster from the
    reported times. */
module RegionCompare {
  import opened Base
  import opened Text

  datatype Region = InternalSram | MappedOspi | DirectOspi | Unknown(addr: nat)

  /** Half-open address ranges: internal SRAM, the OSPI RAM mapped after it
      (up to 0x30000000), and the directly addressed OSPI window. */
  function RegionOf(addr: nat): (r: Region)
    ensures r.Unknown? ==> r.addr == addr
  {
    if 0x2000_0000 <= addr < 0x2008_0000 then InternalSram
    else if 0x2008_0000 <= addr < 0x3000_0000 then MappedOspi
    else if 0x6800_0000 <= addr < 0x7000_0000 then DirectOspi
    else Unknown(addr)
  }

  // ---------------------------------------------------------------------
  // `f"{n:08x}"`
  // ---------------------------------------------------------------------

  function HexDigit(d: nat): (c: char)
    requires d < 16
  {
    "0123456789abcdef"[d]
  }

  /** The value of a lower-case hexadecimal digit. */
  function HexDigitValue(c: char): (v: nat)
    ensures v < 16
  {
    if '0' <= c <= '9' then c as int - '0' as int
    else if 'a' <= c <= 'f' then c as int - 'a' as int + 10
    else 0
  }

  lemma HexDigitRoundTrip(d: nat)
    requires d < 16
    ensures HexDigitValue(HexDigit(d)) == d
  {
  }

  /** The hexadecimal digits of `n`, most significant first. */
  function Hex(n: nat): (s: string)
    ensures |s| >= 1
  {
    if n < 16 then [HexDigit(n)] else Hex(n / 16) + [HexDigit(n % 16)]
  }

  /** `f"{n:08x}"`: at least eight digits, zeros in front. */
  function Hex08(n: nat): (s: string)
    ensures |s| >= 8
  {
    var h := Hex(n);
    if |h| >= 8 then h else seq(8 - |h|, _ => '0') + h
  }

  /** The value of a string of hexadecimal digits. */
  function HexValue(s: string): nat {
    if s == [] then 0 else 16 * HexValue(s[..|s| - 1]) + HexDigitValue(s[|s| - 1])
  }

  lemma {:induction false} HexRoundTrip(n: nat)
    ensures HexValue(Hex(n)) == n
  {
    if n < 16 {
      HexDigitRoundTrip(n);
      assert Hex(n)[..0] == [];
    } else {
      HexRoundTrip(n / 16);
      HexDigitRoundTrip(n % 16);
      var s := Hex(n);
      assert s[..|s| - 1] == Hex(n / 16);
    }
  }

  /** Leading zeros do not change the value. */
  lemma {:induction false} HexLeadingZeros(k: nat, s: string)
    ensures HexValue(seq(k, _ => '0') + s) == HexValue(s)
    decreases |s|
  {
    var z := seq(k, _ => '0');
    if s == [] {
      assert z + s == z;
      ZerosValue(k);
    } else {
      var t := z + s;
      assert t[..|t| - 1] == z + s[..|s| - 1];
      assert t[|t| - 1] == s[|s| - 1];
      HexLeadingZeros(k, s[..|s| - 1]);
    }
  }

  lemma {:induction false} ZerosValue(k: nat)
    ensures HexValue(seq(k, _ => '0')) == 0
  {
    if k > 0 {
      var z := seq(k, _ => '0');
      assert z[..k - 1] == seq(k - 1, _ => '0');
      ZerosValue(k - 1);
    }
  }

  /** Reading the padded text back gives the number. */
  lemma Hex08RoundTrip(n: nat)
    ensures HexValue(Hex08(n)) == n
  {
    HexRoundTrip(n);
    var h := Hex(n);
    if |h| < 8 {
      HexLeadingZeros(8 - |h|, h);
    }
  }

  // ---------------------------------------------------------------------
  // Region labels and the proceed decision
  // ---------------------------------------------------------------------

  function Label(r: Region): string {
    match r
    case InternalSram => "INTERNAL_SRAM"
    case MappedOspi => "MAPPED_OSPI"
    case DirectOspi => "DIRECT_OSPI"
    case Unknown(a) => "UNKNOWN_0x" + Hex08(a)
  }

  /** Different regions have different labels; in particular two different
      unknown addresses are told apart. */
  lemma LabelInjective(r1: Region, r2: Region)
    requires Label(r1) == Label(r2)
    ensures r1 == r2
  {
    if r1.Unknown? && r2.Unknown? {
      var s1, s2 := Label(r1), Label(r2);
      assert s1[10..] == Hex08(r1.addr) && s2[10..] == Hex08(r2.addr);
      Hex08RoundTrip(r1.addr);
      Hex08RoundTrip(r2.addr);
    }
  }

  /** Python's `s.isdigit()` for ASCII text: not empty, digits only. */
  predicate IsDigitText(s: string) {
    s != [] && AllDigits(s)
  }

  /** `int(s) if s.isdigit() else 0`. */
  function AddressOf(reply: string): nat {
    if IsDigitText(reply) then DecimalValue(reply) else 0
  }

  /** The region label of a reported address; None when the board gave no
      reply, and then the label is never assigned. */
  function RegionLabel(reply: Option<string>): (name: Option<string>)
    ensures name.Some? <==> reply.Some? && reply.value != ""
  {
    if reply.None? || reply.value == "" then None
    else Some(Label(RegionOf(AddressOf(reply.value))))
  }

  /** `proceed_with_test`. */
  predicate Proceed(small: Option<string>, large: Option<string>) {
    var ls, ll := RegionLabel(small), RegionLabel(large);
    ls.Some? && ll.Some? && ls.value != ll.value
  }

  /** The speed test runs exactly when both addresses were reported and lie
      in different regions. A reply that is not a number reads as address
      0, which is in no named region. */
  lemma ProceedIffDifferentRegions(small: Option<string>, large: Option<string>)
    ensures Proceed(small, large) <==>
              small.Some? && small.value != "" && large.Some? && large.value != ""
              && RegionOf(AddressOf(small.value)) != RegionOf(AddressOf(large.value))
    ensures forall s :: !IsDigitText(s) ==> RegionOf(AddressOf(s)) == Unknown(0)
  {
    if small.Some? && small.value != "" && large.Some? && large.value != "" {
      var rs, rl := RegionOf(AddressOf(small.value)), RegionOf(AddressOf(large.value));
      if Label(rs) == Label(rl) {
        LabelInjective(rs, rl);
      }
    }
  }

  // ---------------------------------------------------------------------
  // The faster-region decision
  // ---------------------------------------------------------------------

  /** `Raised`: the ratio divides by a zero time. */
  datatype Verdict = SmallFaster | LargeFaster | NoVerdict | Raised

  /** The verdict for one pair of reported times: none unless both are
      digit strings; then the strictly smaller time wins, a tie goes to
      the large buffer, and the ratio's divisor (the winner's time) must
      not be zero. */
  function Faster(tSmall: Option<string>, tLarge: Option<string>): Verdict {
    if tSmall.None? || tLarge.None? || !IsDigitText(tSmall.value) || !IsDigitText(tLarge.value) then NoVerdict
    else
      var a, b := DecimalValue(tSmall.value), DecimalValue(tLarge.value);
      if a < b then (if a == 0 then Raised else SmallFaster)
      else if b == 0 then Raised else LargeFaster
  }

  /** The write verdict and then the read verdict; a raise in the write
      comparison skips the read comparison. */
  function Verdicts(writeSmall: Option<string>, writeLarge: Option<string>,
                    readSmall: Option<string>, readLarge: Option<string>): (v: (Verdict, Verdict))
    ensures v.0 == Faster(writeSmall, writeLarge)
    ensures v.0 == Raised ==> v.1 == NoVerdict
    ensures v.0 != Raised ==> v.1 == Faster(readSmall, readLarge)
  {
    var w := Faster(writeSmall, writeLarge);
    if w == Raised then (w, NoVerdict) else (w, Faster(readSmall, readLarge))
  }

  /** For two positive times the strictly faster buffer is named and a tie
      names the large one; a zero time for the winner raises. */
  lemma FasterDecision(a: nat, b: nat)
    ensures var v := Faster(Some(NatToDecimal(a)), Some(NatToDecimal(b)));
            (a < b && a > 0 ==> v == SmallFaster)
            && (b <= a && b > 0 ==> v == LargeFaster)
            && (a == b ==> v != SmallFaster)
            && ((a < b && a == 0) || (b <= a && b == 0) ==> v == Raised)
  {
    DecimalRoundTrip(a);
    DecimalRoundTrip(b);
  }
}
