/** The chunk-size field of a chunked frame: the block length printed with
    `%08x` into the eight-byte `buf.size` and then stripped of leading zeros,
    keeping at least one digit (util/net/http_transport_win.cc:253-269). */
module ChunkHex {
  import opened Wire

  /** Width of `buf.size`, the `%08x` field. */
  const FieldWidth: nat := 8
  /** One more than the largest `unsigned int` the field is printed from. */
  const UintLimit: nat := 0x1_0000_0000

  const Zero: byte := 48

  predicate IsHexDigit(b: byte)
  {
    (48 <= b <= 57) || (97 <= b <= 102) || (65 <= b <= 70)
  }

  predicate AllHex(s: seq<byte>)
  {
    forall i :: 0 <= i < |s| ==> IsHexDigit(s[i])
  }

  /** The digits `printf`'s `%x` prints: '0'-'9' and 'a'-'f'. */
  predicate IsLowerHexDigit(b: byte)
  {
    (48 <= b <= 57) || (97 <= b <= 102)
  }

  function DigitValue(b: byte): (v: nat)
    requires IsHexDigit(b)
    ensures v < 16
  {
    if b <= 57 then b as int - 48
    else if b >= 97 then b as int - 87
    else b as int - 55
  }

  /** The lower-case digit `printf`'s `%x` prints for a value below 16. */
  function Digit(v: nat): (b: byte)
    requires v < 16
    ensures IsHexDigit(b) && DigitValue(b) == v
    ensures b == Zero <==> v == 0
  {
    if v < 10 then (48 + v) as byte else (87 + v) as byte
  }

  function Pow16(k: nat): (r: nat)
    ensures r >= 1
  {
    if k == 0 then 1 else 16 * Pow16(k - 1)
  }

  /** `width` zero digits. */
  function Zeros(width: nat): (r: seq<byte>)
    ensures |r| == width
    ensures forall i :: 0 <= i < width ==> r[i] == Zero
  {
    seq(width, _ => Zero)
  }

  /** `%0<width>x`: the low `width` hex digits of `n`, zero-padded. */
  function FixedHex(n: nat, width: nat): (r: seq<byte>)
    ensures |r| == width
  {
    if width == 0 then [] else FixedHex(n / 16, width - 1) + [Digit(n % 16)]
  }

  /** The `size_len` loop: skip leading '0' characters of the field, but
      never the last one. The result is the suffix of the field that starts
      at its first non-zero character, or its last character. */
  function TrimLeadingZeros(field: seq<byte>): (r: seq<byte>)
    requires |field| >= 1
    ensures 1 <= |r| <= |field|
    decreases |field|
  {
    if |field| > 1 && field[0] == Zero then TrimLeadingZeros(field[1..]) else field
  }

  /** What the `size_len` loop keeps: a suffix of the field that starts
      with a non-zero digit unless it is a single digit, and every byte it
      drops is '0'. */
  lemma {:induction false} TrimLeadingZerosShape(field: seq<byte>)
    requires |field| >= 1
    ensures var r := TrimLeadingZeros(field);
      && r == field[|field| - |r|..]
      && (r[0] != Zero || |r| == 1)
      && (forall i :: 0 <= i < |field| - |r| ==> field[i] == Zero)
    decreases |field|
  {
    if |field| > 1 && field[0] == Zero {
      TrimLeadingZerosShape(field[1..]);
      assert field[1..][|field| - 1 - |TrimLeadingZeros(field)|..] == field[|field| - |TrimLeadingZeros(field)|..];
    }
  }

  /** The chunk-size field written for a block of `n` bytes. */
  function SizeField(n: nat): seq<byte>
    requires n < UintLimit
  {
    TrimLeadingZeros(FixedHex(n, FieldWidth))
  }

  /** Reference numeral: the shortest lower-case hexadecimal spelling of `n`.
      It starts with a non-zero digit unless `n` is zero, which is "0". */
  function ToHex(n: nat): (r: seq<byte>)
    ensures 1 <= |r| && AllHex(r)
    ensures n == 0 ==> r == [Zero]
    ensures n > 0 ==> r[0] != Zero
  {
    if n < 16 then [Digit(n)] else ToHex(n / 16) + [Digit(n % 16)]
  }

  /** The value of a string of hex digits, most significant first. */
  function FromHex(s: seq<byte>): nat
    requires AllHex(s)
  {
    if |s| == 0 then 0 else 16 * FromHex(s[..|s| - 1]) + DigitValue(s[|s| - 1])
  }

  /** The reference numeral is written in lower case. */
  lemma {:induction false} ToHexLowerCase(n: nat)
    ensures forall i :: 0 <= i < |ToHex(n)| ==> IsLowerHexDigit(ToHex(n)[i])
  {
    if n >= 16 {
      ToHexLowerCase(n / 16);
    }
  }

  /** Reading back the reference numeral gives the number. */
  lemma {:induction false} FromHexToHex(n: nat)
    ensures FromHex(ToHex(n)) == n
  {
    if n >= 16 {
      var h := ToHex(n / 16) + [Digit(n % 16)];
      assert h[..|h| - 1] == ToHex(n / 16);
      FromHexToHex(n / 16);
    }
  }

  lemma Pow16Step(n: nat, w: nat)
    requires w >= 1 && n < Pow16(w)
    ensures n / 16 < Pow16(w - 1)
  {
  }

  /** `FixedHex(0, w)` is all zeros. */
  lemma {:induction false} FixedHexOfZero(w: nat)
    ensures FixedHex(0, w) == Zeros(w)
  {
    if w > 0 {
      FixedHexOfZero(w - 1);
      assert Zeros(w - 1) + [Zero] == Zeros(w);
    }
  }

  /** Zero-padding: printing `n < 16^w` with `%0<w>x` puts zeros in front
      of the reference numeral, which then has at most `w` digits. */
  lemma {:induction false} FixedHexPadsToHex(n: nat, w: nat)
    requires 1 <= w && n < Pow16(w)
    ensures |ToHex(n)| <= w
    ensures FixedHex(n, w) == Zeros(w - |ToHex(n)|) + ToHex(n)
    decreases w
  {
    var d := [Digit(n % 16)];
    if n < 16 {
      FixedHexOfZero(w - 1);
      assert n / 16 == 0;
      assert FixedHex(n, w) == Zeros(w - 1) + d;
    } else {
      Pow16Step(n, w);
      FixedHexPadsToHex(n / 16, w - 1);
      var z := Zeros(w - 1 - |ToHex(n / 16)|);
      var h := ToHex(n / 16);
      assert ToHex(n) == h + d;
      assert Zeros(w - |ToHex(n)|) == z;
      assert FixedHex(n, w) == (z + h) + d;
      SeqAssoc(z, h, d);
    }
  }

  /** Trimming zeros in front of a numeral that does not itself start with
      a redundant zero yields that numeral. */
  lemma {:induction false} TrimZerosBefore(k: nat, h: seq<byte>)
    requires |h| >= 1
    requires h[0] != Zero || |h| == 1
    ensures TrimLeadingZeros(Zeros(k) + h) == h
    decreases k
  {
    if k > 0 {
      assert (Zeros(k) + h)[1..] == Zeros(k - 1) + h;
      TrimZerosBefore(k - 1, h);
    } else {
      assert Zeros(0) + h == h;
    }
  }

  lemma Pow16Eight()
    ensures Pow16(FieldWidth) == UintLimit
  {
    assert Pow16(4) == 65536;
  }

  /** The trimmed `%08x` field is exactly the shortest hex numeral of the
      block length: at most eight digits, no leading zero except for the
      single digit of a zero length, and it reads back as the length. */
  lemma SizeFieldIsMinimalHex(n: nat)
    requires n < UintLimit
    ensures SizeField(n) == ToHex(n)
    ensures 1 <= |SizeField(n)| <= FieldWidth
    ensures SizeField(n)[0] == Zero ==> n == 0 && SizeField(n) == [Zero]
    ensures FromHex(SizeField(n)) == n
    ensures forall i :: 0 <= i < |SizeField(n)| ==> IsLowerHexDigit(SizeField(n)[i])
  {
    ToHexLowerCase(n);
    Pow16Eight();
    FixedHexPadsToHex(n, FieldWidth);
    TrimZerosBefore(FieldWidth - |ToHex(n)|, ToHex(n));
    FromHexToHex(n);
  }

  /** The reference numerals of the example lengths. */
  lemma ToHexExamples()
    ensures ToHex(0) == [Zero]
    ensures ToHex(4096) == [49, 48, 48, 48]
    ensures ToHex(32768) == [56, 48, 48, 48]
    ensures ToHex(32767) == [55, 102, 102, 102]
  {
    assert ToHex(7) == [55];
    assert ToHex(127) == [55, 102];
    assert ToHex(2047) == [55, 102, 102];
    assert ToHex(1) == [49];
    assert ToHex(16) == [49, 48];
    assert ToHex(256) == [49, 48, 48];
    assert ToHex(8) == [56];
    assert ToHex(128) == [56, 48];
    assert ToHex(2048) == [56, 48, 48];
  }

  /** An empty block, a 4 KiB block, a full 32 KiB block and one byte less
      ("7fff", which needs letter digits). */
  lemma SizeFieldExamples()
    ensures SizeField(0) == [Zero]
    ensures SizeField(4096) == [49, 48, 48, 48]
    ensures SizeField(32768) == [56, 48, 48, 48]
    ensures SizeField(32767) == [55, 102, 102, 102]
  {
    SizeFieldIsMinimalHex(32767);
    SizeFieldIsMinimalHex(0);
    SizeFieldIsMinimalHex(4096);
    SizeFieldIsMinimalHex(32768);
    ToHexExamples();
  }
}
