/** Base58 and Base58Check: numbers written in base 256 and in base 58, leading zeros kept one for one. */
module Base58 {
  import opened Wrappers

  datatype Result =
    | Ok(bytes: seq<Byte>)
    | BadByte(byte: Byte)
    | TooShort(length: nat)
    | BadChecksum(expected: nat, actual: nat)
    | OutOfRange

  // The alphabet

  /** BASE58_CHARS */
  function Char(d: nat): (c: Byte)
    requires d < 58
  {
    if d < 9 then 49 + d            // 1-9
    else if d < 17 then 65 + d - 9  // A-H
    else if d < 22 then 74 + d - 17 // J-N
    else if d < 33 then 80 + d - 22 // P-Z
    else if d < 44 then 97 + d - 33 // a-k
    else 109 + d - 44               // m-z
  }

  /** BASE58_DIGITS */
  function Digit(c: Byte): (d: Option<nat>)
    ensures d.Some? ==> d.value < 58 && c < 128
  {
    if 49 <= c < 58 then Some(c - 49)
    else if 65 <= c < 73 then Some(c - 65 + 9)
    else if 74 <= c < 79 then Some(c - 74 + 17)
    else if 80 <= c < 91 then Some(c - 80 + 22)
    else if 97 <= c < 108 then Some(c - 97 + 33)
    else if 109 <= c < 123 then Some(c - 109 + 44)
    else None
  }

  lemma CharDigit(d: nat)
    requires d < 58
    ensures Digit(Char(d)) == Some(d)
  {}

  lemma DigitChar(c: Byte)
    requires Digit(c).Some?
    ensures Char(Digit(c).value) == c
  {}

  // Numbers in base 58 and base 256

  predicate Base(b: nat) { b == 58 || b == 256 }

  ghost predicate InBase(b: nat, ds: seq<nat>) {
    forall i :: 0 <= i < |ds| ==> ds[i] < b
  }

  /** The value of digits, the greatest first. */
  ghost function Value(b: nat, ds: seq<nat>): (v: nat) {
    if ds == [] then 0 else Value(b, ds[..|ds| - 1]) * b + ds[|ds| - 1]
  }

  /** The digits of a number, without leading zeros. */
  function ToBase(b: nat, v: nat): (ds: seq<nat>)
    requires Base(b)
    ensures v == 0 <==> ds == []
  {
    if v == 0 then [] else ToBase(b, v / b) + [v % b]
  }

  function Zeros(n: nat): (ds: seq<nat>)
    ensures |ds| == n && forall i :: 0 <= i < n ==> ds[i] == 0
  {
    seq(n, _ => 0)
  }

  /** How many digits before the first that is not zero. */
  ghost function Leading(ds: seq<nat>): (n: nat)
    ensures n <= |ds| && (forall i :: 0 <= i < n ==> ds[i] == 0) && (n < |ds| ==> ds[n] != 0)
  {
    if ds == [] || ds[0] != 0 then 0 else 1 + Leading(ds[1..])
  }

  lemma LeadingIs(ds: seq<nat>, n: nat)
    requires n <= |ds| && (forall i :: 0 <= i < n ==> ds[i] == 0) && (n < |ds| ==> ds[n] != 0)
    ensures Leading(ds) == n
  {
  }

  lemma ValueStep(b: nat, ds: seq<nat>, d: nat)
    ensures Value(b, ds + [d]) == Value(b, ds) * b + d
    ensures Value(b, []) == 0
  {
    assert (ds + [d])[..|ds|] == ds;
  }

  lemma {:induction false} ToBaseValue(b: nat, v: nat)
    requires Base(b)
    ensures InBase(b, ToBase(b, v)) && Value(b, ToBase(b, v)) == v
    ensures v > 0 ==> ToBase(b, v)[0] != 0
  {
    ValueStep(b, [], 0);
    hide Value;
    if v > 0 {
      ToBaseValue(b, v / b);
      ValueStep(b, ToBase(b, v / b), v % b);
      Recompose(b, v);
    }
  }

  /** Writing the value of digits again gives the digits without their leading zeros. */
  lemma {:induction false} ValueToBase(b: nat, ds: seq<nat>)
    requires Base(b) && InBase(b, ds)
    ensures ToBase(b, Value(b, ds)) == ds[Leading(ds)..]
  {
    hide ToBase, Leading, Value;
    ValueStep(b, [], 0);
    if ds != [] {
      var n := |ds| - 1;
      var rest, d, v := ds[..n], ds[n], Value(b, ds[..n]);
      ValueToBase(b, rest);
      ValueLast(b, v, d);
      assert ds == rest + [d];
      ValueStep(b, rest, d);
      if Leading(rest) == n {
        LeadingIs(ds, if d == 0 then n + 1 else n);
      } else {
        LeadingIs(ds, Leading(rest));
        assert rest[Leading(rest)..] + [d] == ds[Leading(rest)..];
      }
    }
  }

  lemma ValueLast(b: nat, v: nat, d: nat)
    requires Base(b) && d < b
    ensures ToBase(b, v * b + d) == if v == 0 && d == 0 then [] else ToBase(b, v) + [d]
  {
    if b == 58 {
      assert (v * 58 + d) / 58 == v && (v * 58 + d) % 58 == d;
    } else {
      assert (v * 256 + d) / 256 == v && (v * 256 + d) % 256 == d;
    }
  }

  lemma LeadingPad(b: nat, k: nat, v: nat)
    requires Base(b)
    ensures Leading(Zeros(k) + ToBase(b, v)) == k
    ensures Value(b, Zeros(k) + ToBase(b, v)) == v && InBase(b, Zeros(k) + ToBase(b, v))
  {
    ToBaseValue(b, v);
    LeadingIs(Zeros(k) + ToBase(b, v), k);
    PadValue(b, k, ToBase(b, v));
  }

  lemma {:induction false} PadValue(b: nat, k: nat, ds: seq<nat>)
    ensures Value(b, Zeros(k) + ds) == Value(b, ds)
    decreases |ds|, k
  {
    if ds == [] {
      assert Zeros(k) + ds == Zeros(k);
      if k > 0 {
        PadValue(b, k - 1, []);
        assert Zeros(k - 1) + [] == Zeros(k - 1) && Zeros(k)[..k - 1] == Zeros(k - 1);
      }
    } else {
      var n := |ds| - 1;
      PadValue(b, k, ds[..n]);
      ValueStep(b, Zeros(k) + ds[..n], ds[n]);
      assert Zeros(k) + ds == Zeros(k) + ds[..n] + [ds[n]];
    }
  }

  /** Digits are determined by their value and the number of their leading zeros. */
  lemma ConvertBack(b: nat, ds: seq<nat>)
    requires Base(b) && InBase(b, ds)
    ensures Zeros(Leading(ds)) + ToBase(b, Value(b, ds)) == ds
  {
    ValueToBase(b, ds);
    assert ds == ds[..Leading(ds)] + ds[Leading(ds)..];
    assert ds[..Leading(ds)] == Zeros(Leading(ds));
  }

  // What the two directions compute

  function CharsOf(ds: seq<nat>): (s: seq<Byte>)
    requires forall i :: 0 <= i < |ds| ==> ds[i] < 58
    ensures |s| == |ds| && forall i :: 0 <= i < |ds| ==> s[i] == Char(ds[i])
  {
    seq(|ds|, i requires 0 <= i < |ds| => Char(ds[i]))
  }

  ghost function Encoded(data: seq<Byte>): (s: seq<Byte>) {
    ToBaseValue(58, Value(256, data));
    CharsOf(Zeros(Leading(data)) + ToBase(58, Value(256, data)))
  }

  /** The number of bytes before the first that is not in the alphabet. */
  ghost function FirstBad(s: seq<Byte>): (n: nat)
    ensures n <= |s| && (forall i :: 0 <= i < n ==> Digit(s[i]).Some?) && (n < |s| ==> Digit(s[n]).None?)
  {
    if s == [] || Digit(s[0]).None? then 0 else 1 + FirstBad(s[1..])
  }

  ghost function DigitsOf(s: seq<Byte>): (ds: seq<nat>)
    requires FirstBad(s) == |s|
    ensures |ds| == |s| && InBase(58, ds) && forall i :: 0 <= i < |s| ==> ds[i] == Digit(s[i]).value
  {
    seq(|s|, i requires 0 <= i < |s| => Digit(s[i]).value)
  }

  ghost function Decoded(s: seq<Byte>): (r: Result) {
    if FirstBad(s) < |s| then
      if s[FirstBad(s)] == 128 then OutOfRange else BadByte(s[FirstBad(s)])
    else
      var ds := DigitsOf(s);
      ToBaseValue(256, Value(58, ds));
      Ok(Zeros(Leading(ds)) + ToBase(256, Value(58, ds)))
  }

  lemma FirstBadIs(s: seq<Byte>, n: nat)
    requires n <= |s| && (forall i :: 0 <= i < n ==> Digit(s[i]).Some?) && (n < |s| ==> Digit(s[n]).None?)
    ensures FirstBad(s) == n
  {
    hide Digit;
  }

  /** decode(encode(b)) == b for all byte strings. */
  lemma DecodeEncode(data: seq<Byte>)
    ensures Decoded(Encoded(data)) == Ok(data)
  {
    hide Char, Digit;
    var v := Value(256, data);
    var ds := Zeros(Leading(data)) + ToBase(58, v);
    var s := Encoded(data);
    LeadingPad(58, Leading(data), v);
    assert s == CharsOf(ds);
    forall i | 0 <= i < |s| ensures Digit(s[i]) == Some(ds[i]) { CharDigit(ds[i]); }
    FirstBadIs(s, |s|);
    assert DigitsOf(s) == ds;
    ConvertBack(256, data);
  }

  /** encode(decode(s)) == s for all strings that decode. */
  lemma EncodeDecode(s: seq<Byte>)
    requires Decoded(s).Ok?
    ensures Encoded(Decoded(s).bytes) == s
  {
    hide Char, Digit;
    var ds := DigitsOf(s);
    var v := Value(58, ds);
    var data: seq<nat> := Zeros(Leading(ds)) + ToBase(256, v);
    LeadingPad(256, Leading(ds), v);
    ConvertBack(58, ds);
    forall i | 0 <= i < |s| ensures Char(ds[i]) == s[i] { DigitChar(s[i]); }
    assert CharsOf(ds) == s;
  }

  // Digits by place

  /** A number without its last k digits. */
  ghost function Drop(b: nat, v: nat, k: nat): (r: nat)
    requires Base(b)
  {
    if k == 0 then v else Drop(b, v / b, k - 1)
  }

  lemma {:induction false} DropNext(b: nat, v: nat, k: nat)
    requires Base(b)
    ensures Drop(b, v, k + 1) == Drop(b, v, k) / b
  {
    if k > 0 { DropNext(b, v / b, k - 1); }
  }

  lemma DropFirst(b: nat, v: nat, k: nat)
    requires Base(b)
    ensures Drop(b, v, 0) == v && Drop(b, v, k + 1) == Drop(b, v / b, k)
  {}

  /** The digits of v, the least last, with zeros in front. */
  ghost predicate Filled(b: nat, ds: seq<nat>, v: nat)
    requires Base(b)
  {
    && (forall k :: 0 <= k < |ds| ==> ds[|ds| - 1 - k] == Drop(b, v, k) % b)
    && Drop(b, v, |ds|) == 0
  }

  lemma {:induction false} FilledValue(b: nat, ds: seq<nat>, v: nat)
    requires Base(b) && Filled(b, ds, v)
    ensures InBase(b, ds) && Value(b, ds) == v
  {
    hide Drop, Value;
    DropFirst(b, v, 0);
    ValueStep(b, [], 0);
    if ds != [] {
      var n := |ds| - 1;
      var rest, d := ds[..n], ds[n];
      assert ds == rest + [d];
      assert d == Drop(b, v, 0) % b;
      DropFirst(b, v, n);
      forall k | 0 <= k < n ensures rest[n - 1 - k] == Drop(b, v / b, k) % b {
        DropFirst(b, v, k);
        assert ds[|ds| - 1 - (k + 1)] == Drop(b, v, k + 1) % b;
      }
      FilledValue(b, rest, v / b);
      ValueStep(b, rest, d);
      Recompose(b, v);
    }
  }

  lemma Recompose(b: nat, v: nat)
    requires Base(b)
    ensures v / b * b + v % b == v
  {}

  /** Filled digits without their leading zeros are the digits of the number. */
  lemma FilledStrip(b: nat, ds: seq<nat>, v: nat)
    requires Base(b) && Filled(b, ds, v)
    ensures ds[Leading(ds)..] == ToBase(b, v)
  {
    hide *;
    FilledValue(b, ds, v);
    ValueToBase(b, ds);
  }

  /** One place of multiplying by m and carrying: x and y are what is left of the old and the new number. */
  lemma CarryStep(b: nat, m: nat, x: nat, y: nat, carry: nat)
    requires (b == 256 && m == 58) || (b == 58 && m == 256)
    requires y == m * x + carry
    ensures y % b == (m * (x % b) + carry) % b
    ensures y / b == m * (x / b) + (m * (x % b) + carry) / b
  {
    if b == 256 {
      var q, t := x / 256, 58 * (x % 256) + carry;
      Divided256(y, 58 * q + t / 256, t % 256);
    } else {
      var q, t := x / 58, 256 * (x % 58) + carry;
      Divided58(y, 256 * q + t / 58, t % 58);
    }
  }

  lemma Divided256(y: nat, q: nat, r: nat)
    requires y == 256 * q + r && r < 256
    ensures y / 256 == q && y % 256 == r
  {}

  lemma Divided58(y: nat, q: nat, r: nat)
    requires y == 58 * q + r && r < 58
    ensures y / 58 == q && y % 58 == r
  {}

  // Encoding

  /** The digits of v, the least first, without zeros at the end. */
  ghost predicate Little(ds: seq<nat>, v: nat) {
    && (forall k :: 0 <= k < |ds| ==> ds[k] == Drop(58, v, k) % 58)
    && Drop(58, v, |ds|) == 0 && (|ds| > 0 ==> Drop(58, v, |ds| - 1) > 0)
  }

  lemma LittleIs(ds: seq<nat>, v: nat)
    requires Little(ds, v)
    ensures Reversed(ds) == ToBase(58, v)
  {
    hide Drop, Value, ToBase, Leading;
    assert Filled(58, Reversed(ds), v);
    FilledStrip(58, Reversed(ds), v);
    if ds != [] {
      DropNext(58, v, |ds| - 1);
      assert Reversed(ds)[0] == Drop(58, v, |ds| - 1) % 58;
    }
    LeadingIs(Reversed(ds), 0);
  }

  /** X := X * 256 + d on base-58 digits, the least first. */
  method TimesPlus(digits: seq<nat>, d: Byte, ghost v: nat) returns (ret: seq<nat>)
    requires Little(digits, v)
    ensures Little(ret, 256 * v + d)
  {
    hide Drop;
    ghost var v' := 256 * v + d;
    DropFirst(58, v, 0);
    DropFirst(58, v', 0);
    ret := digits;
    var carry: nat := d;
    for j := 0 to |digits|
      invariant |ret| == |digits| && Drop(58, v', j) == 256 * Drop(58, v, j) + carry
      invariant forall k :: 0 <= k < j ==> ret[k] == Drop(58, v', k) % 58
      invariant forall k :: j <= k < |ret| ==> ret[k] == Drop(58, v, k) % 58
    {
      CarryStep(58, 256, Drop(58, v, j), Drop(58, v', j), carry);
      DropNext(58, v, j);
      DropNext(58, v', j);
      var newCh := ret[j] * 256 + carry;
      ret := ret[j := newCh % 58];
      carry := newCh / 58;
    }
    StillPositive(v, v', |digits|);
    while carry > 0
      invariant carry == Drop(58, v', |ret|)
      invariant forall k :: 0 <= k < |ret| ==> ret[k] == Drop(58, v', k) % 58
      invariant |ret| > 0 ==> Drop(58, v', |ret| - 1) > 0
      decreases carry
    {
      DropNext(58, v', |ret|);
      ret := ret + [carry % 58];
      carry := carry / 58;
    }
  }

  lemma StillPositive(v: nat, v': nat, n: nat)
    requires v' >= v
    ensures n > 0 && Drop(58, v, n - 1) > 0 ==> Drop(58, v', n - 1) > 0
  {
    if n > 0 { DropMonotone(58, v, v', n - 1); }
  }

  lemma {:induction false} DropMonotone(b: nat, v: nat, v': nat, k: nat)
    requires Base(b) && v <= v'
    ensures Drop(b, v, k) <= Drop(b, v', k)
  {
    if k > 0 {
      if b == 58 { assert v / 58 <= v' / 58; } else { assert v / 256 <= v' / 256; }
      DropMonotone(b, v / b, v' / b, k - 1);
    }
  }

  lemma LeadingNext(data: seq<Byte>, i: nat)
    requires i < |data|
    ensures Leading(data[..0]) == 0 && data[..|data|] == data
    ensures Leading(data[..i + 1]) == if Leading(data[..i]) == i && data[i] == 0 then i + 1 else Leading(data[..i])
  {
    hide Leading;
    var n := Leading(data[..i]);
    assert forall k :: 0 <= k < i ==> data[..i + 1][k] == data[..i][k];
    LeadingIs(data[..i + 1], if n == i && data[i] == 0 then i + 1 else n);
  }

  lemma ValueNext(data: seq<Byte>, i: nat)
    requires i < |data|
    ensures Value(256, data[..i + 1]) == 256 * Value(256, data[..i]) + data[i]
  {
    assert data[..i + 1] == data[..i] + [data[i]];
    ValueStep(256, data[..i], data[i]);
  }

  /** encode_iter_utf8 */
  method EncodeIter(data: seq<Byte>) returns (s: seq<Byte>)
    ensures s == Encoded(data)
  {
    hide Value, ToBase, Leading, Little, Char, Drop;
    var ret: seq<nat> := [];
    var leadingZeroCount := 0;
    var leadingZeroes := true;
    EncodeStart(data);
    for i := 0 to |data|
      invariant Little(ret, Value(256, data[..i]))
      invariant leadingZeroCount == Leading(data[..i]) && (leadingZeroes <==> leadingZeroCount == i)
    {
      LeadingNext(data, i);
      if leadingZeroes && data[i] == 0 {
        leadingZeroCount := leadingZeroCount + 1;
      } else {
        leadingZeroes := false;
      }
      ValueNext(data, i);
      ret := TimesPlus(ret, data[i], Value(256, data[..i]));
    }
    assert data[..|data|] == data;
    LittleIs(ret, Value(256, data));
    ToBaseValue(58, Value(256, data));
    ghost var digits := ret;
    for i := 0 to leadingZeroCount
      invariant ret == digits + Zeros(i)
    {
      ret := ret + [0];
    }
    assert Reversed(ret) == Zeros(leadingZeroCount) + ToBase(58, Value(256, data));
    s := CharsOf(Reversed(ret));
  }

  lemma EncodeStart(data: seq<Byte>)
    ensures Little([], Value(256, data[..0])) && Leading(data[..0]) == 0
  {}

  // The length of the scratch buffer

  ghost function Pow58(n: nat): (p: nat)
    ensures p > 0
  {
    if n == 0 then 1 else 58 * Pow58(n - 1)
  }

  lemma Pow58Values()
    ensures Pow58(0) == 1
    ensures Pow58(1) == 58
    ensures Pow58(2) == 3364
    ensures Pow58(3) == 195112
    ensures Pow58(4) == 11316496
    ensures Pow58(5) == 656356768
    ensures Pow58(6) == 38068692544
    ensures Pow58(7) == 2207984167552
    ensures Pow58(8) == 128063081718016
    ensures Pow58(9) == 7427658739644928
    ensures Pow58(10) == 430804206899405824
    ensures Pow58(11) == 24986644000165537792
    ensures Pow58(12) == 1449225352009601191936
    ensures Pow58(13) == 84055070416556869132288
    ensures Pow58(14) == 4875194084160298409672704
    ensures Pow58(15) == 282761256881297307761016832
  {
    assert Pow58(1) == 58 * Pow58(0);
    assert Pow58(2) == 58 * Pow58(1);
    assert Pow58(3) == 58 * Pow58(2);
    assert Pow58(4) == 58 * Pow58(3);
    assert Pow58(5) == 58 * Pow58(4);
    assert Pow58(6) == 58 * Pow58(5);
    assert Pow58(7) == 58 * Pow58(6);
    assert Pow58(8) == 58 * Pow58(7);
    assert Pow58(9) == 58 * Pow58(8);
    assert Pow58(10) == 58 * Pow58(9);
    assert Pow58(11) == 58 * Pow58(10);
    assert Pow58(12) == 58 * Pow58(11);
    assert Pow58(13) == 58 * Pow58(12);
    assert Pow58(14) == 58 * Pow58(13);
    assert Pow58(15) == 58 * Pow58(14);
  }

  lemma Pow256Values()
    ensures Pow256(0) == 1
    ensures Pow256(1) == 256
    ensures Pow256(2) == 65536
    ensures Pow256(3) == 16777216
    ensures Pow256(4) == 4294967296
    ensures Pow256(5) == 1099511627776
    ensures Pow256(6) == 281474976710656
    ensures Pow256(7) == 72057594037927936
    ensures Pow256(8) == 18446744073709551616
    ensures Pow256(9) == 4722366482869645213696
    ensures Pow256(10) == 1208925819614629174706176
    ensures Pow256(11) == 309485009821345068724781056
  {
    assert Pow256(1) == 256 * Pow256(0);
    assert Pow256(2) == 256 * Pow256(1);
    assert Pow256(3) == 256 * Pow256(2);
    assert Pow256(4) == 256 * Pow256(3);
    assert Pow256(5) == 256 * Pow256(4);
    assert Pow256(6) == 256 * Pow256(5);
    assert Pow256(7) == 256 * Pow256(6);
    assert Pow256(8) == 256 * Pow256(7);
    assert Pow256(9) == 256 * Pow256(8);
    assert Pow256(10) == 256 * Pow256(9);
    assert Pow256(11) == 256 * Pow256(10);
  }

  lemma {:induction false} FifteenMore(n: nat)
    ensures Pow58(n + 15) == 282761256881297307761016832 * Pow58(n)
  {
    hide Pow58;
    Pow58Next(n + 14);
    if n == 0 {
      Pow58Values();
    } else {
      FifteenMore(n - 1);
      Pow58Next(n - 1);
    }
  }

  lemma {:induction false} ElevenMore(n: nat)
    ensures Pow256(n + 11) == 309485009821345068724781056 * Pow256(n)
  {
    hide Pow256;
    Pow256Next(n + 10);
    if n == 0 {
      Pow256Values();
    } else {
      ElevenMore(n - 1);
      Pow256Next(n - 1);
    }
  }

  lemma Pow58Next(n: nat)
    ensures Pow58(n + 1) == 58 * Pow58(n)
  {}

  lemma Pow256Next(n: nat)
    ensures Pow256(n + 1) == 256 * Pow256(n)
  {}

  lemma ShortScratch(n: nat)
    requires n < 15
    ensures Pow58(n) <= Pow256(1 + n * 11 / 15)
  {
    hide Pow58, Pow256;
    Pow58Values();
    Pow256Values();
  }

  /** Because 58^15 < 256^11, n base-58 digits always fit in 1 + 11n/15 bytes. */
  lemma {:induction false} ScratchSuffices(n: nat)
    ensures Pow58(n) <= Pow256(1 + n * 11 / 15)
  {
    hide Pow58, Pow256;
    if n < 15 {
      ShortScratch(n);
    } else {
      ScratchSuffices(n - 15);
      FifteenMore(n - 15);
      ElevenMore(1 + (n - 15) * 11 / 15);
      assert n * 11 / 15 == (n - 15) * 11 / 15 + 11;
    }
  }

  lemma {:induction false} ValueBound(ds: seq<nat>)
    requires InBase(58, ds)
    ensures Value(58, ds) < Pow58(|ds|)
  {
    if ds != [] { ValueBound(ds[..|ds| - 1]); }
  }

  lemma {:induction false} Pow58Monotone(i: nat, n: nat)
    requires i <= n
    ensures Pow58(i) <= Pow58(n)
  {
    if i < n { Pow58Monotone(i, n - 1); }
  }

  lemma {:induction false} DropSmall(v: nat, n: nat)
    requires v < Pow256(n)
    ensures Drop(256, v, n) == 0
  {
    if n > 0 { DropSmall(v / 256, n - 1); }
  }

  /** The number that i of n digits make fits the scratch buffer for n digits. */
  lemma FitsScratch(ds: seq<nat>, n: nat)
    requires InBase(58, ds) && |ds| <= n
    ensures Drop(256, Value(58, ds), 1 + n * 11 / 15) == 0
  {
    hide *;
    ValueBound(ds);
    Pow58Monotone(|ds|, n);
    ScratchSuffices(n);
    DropSmall(Value(58, ds), 1 + n * 11 / 15);
  }

  // Decoding

  lemma CarrySmall(cell: Byte, carry: nat)
    requires carry < 58
    ensures var c: nat := cell; (carry + c * 58) / 256 < 58
  {}

  /** One place of the scratch buffer. */
  lemma PlaceStep(v: nat, v': nat, k: nat, carry: nat, cell: Byte)
    requires carry < 58 && cell == Drop(256, v, k) % 256 && Drop(256, v', k) == 58 * Drop(256, v, k) + carry
    ensures var sum: nat := carry + (cell as nat) * 58;
            && sum % 256 == Drop(256, v', k) % 256 && sum / 256 < 58
            && Drop(256, v', k + 1) == 58 * Drop(256, v, k + 1) + sum / 256
  {
    hide Drop;
    CarryStep(256, 58, Drop(256, v, k), Drop(256, v', k), carry);
    CarrySmall(cell, carry);
    DropNext(256, v, k);
    DropNext(256, v', k);
  }

  /** X := X * 58 + d on base-256 digits in place, the least last; no carry is left over. */
  method TimesPlusInPlace(scratch: array<Byte>, d: nat, ghost v: nat)
    requires d < 58 && Filled(256, scratch[..], v) && Drop(256, 58 * v + d, scratch.Length) == 0
    modifies scratch
    ensures Filled(256, scratch[..], 58 * v + d)
  {
    hide Drop;
    ghost var v' := 58 * v + d;
    var n := scratch.Length;
    ghost var start := scratch[..];
    DropFirst(256, v, 0);
    DropFirst(256, v', 0);
    forall k | 0 <= k < n ensures scratch[n - 1 - k] == Drop(256, v, k) % 256 {
      assert start[n - 1 - k] == Drop(256, v, k) % 256;
    }
    var carry: nat := d;
    var j := n;
    while j > 0
      invariant 0 <= j <= n && carry < 58
      invariant Drop(256, v', n - j) == 58 * Drop(256, v, n - j) + carry
      invariant forall k :: 0 <= k < n - j ==> scratch[n - 1 - k] == Drop(256, v', k) % 256
      invariant forall k :: n - j <= k < n ==> scratch[n - 1 - k] == Drop(256, v, k) % 256
    {
      j := j - 1;
      ghost var k := n - 1 - j;
      assert scratch[n - 1 - k] == Drop(256, v, k) % 256;
      PlaceStep(v, v', k, carry, scratch[j]);
      var cell: nat := scratch[j];
      carry := carry + cell * 58;
      scratch[j] := carry % 256;
      carry := carry / 256;
    }
    assert carry == 0;
    ghost var end := scratch[..];
    forall k | 0 <= k < n ensures end[n - 1 - k] == Drop(256, v', k) % 256 {
      assert scratch[n - 1 - k] == Drop(256, v', k) % 256;
    }
  }

  /** from */
  method From(data: seq<Byte>) returns (r: Result)
    ensures r == Decoded(data)
  {
    hide Drop, Value, Digit, ToBase, Leading, Filled, FirstBad;
    var n := 1 + |data| * 11 / 15;
    var scratch := new Byte[n](_ => 0);
    ghost var ds: seq<nat> := [];
    ScratchStart(scratch[..]);
    for i := 0 to |data|
      invariant |ds| == i && forall k :: 0 <= k < i ==> Digit(data[k]) == Some(ds[k])
      invariant Filled(256, scratch[..], Value(58, ds))
    {
      var d58 := data[i];
      if d58 > 128 {
        BadAt(data, i);
        return BadByte(d58);
      }
      if d58 == 128 {
        BadAt(data, i);
        return OutOfRange;
      }
      var digit := Digit(d58);
      if digit.None? {
        BadAt(data, i);
        return BadByte(d58);
      }
      FitsScratch(ds + [digit.value], |data|);
      ValueStep(58, ds, digit.value);
      TimesPlusInPlace(scratch, digit.value, Value(58, ds));
      ds := ds + [digit.value];
    }
    AllGood(data, ds);
    var bytes := scratch[..];
    var ones := 0;
    while ones < |data| && data[ones] == Char(0)
      invariant 0 <= ones <= |data| && forall k :: 0 <= k < ones ==> ds[k] == 0
    {
      OneIsZero(data[ones]);
      ones := ones + 1;
    }
    if ones < |data| { OneIsZero(data[ones]); }
    LeadingIs(ds, ones);
    var zeros := 0;
    while zeros < n && bytes[zeros] == 0
      invariant 0 <= zeros <= n && forall k :: 0 <= k < zeros ==> bytes[k] == 0
    {
      zeros := zeros + 1;
    }
    LeadingIs(bytes, zeros);
    FilledStrip(256, bytes, Value(58, ds));
    r := Ok(Zeros(ones) + bytes[zeros..]);
  }

  lemma ScratchStart(a: seq<Byte>)
    requires forall k :: 0 <= k < |a| ==> a[k] == 0
    ensures Filled(256, a, Value(58, []))
  {
    hide Drop;
    forall k | 0 <= k <= |a| ensures Drop(256, 0, k) == 0 { DropZero(k); }
  }

  lemma {:induction false} DropZero(k: nat)
    ensures Drop(256, 0, k) == 0
  {
    if k > 0 { DropZero(k - 1); }
  }

  lemma BadAt(data: seq<Byte>, i: nat)
    requires i < |data| && forall k :: 0 <= k < i ==> Digit(data[k]).Some?
    ensures Digit(data[i]).None? ==> FirstBad(data) == i
    ensures data[i] >= 128 ==> Digit(data[i]).None?
  {
    if Digit(data[i]).None? { FirstBadIs(data, i); }
  }

  lemma AllGood(data: seq<Byte>, ds: seq<nat>)
    requires |ds| == |data| && forall k :: 0 <= k < |ds| ==> Digit(data[k]) == Some(ds[k])
    ensures FirstBad(data) == |data| && DigitsOf(data) == ds && InBase(58, ds)
  {
    FirstBadIs(data, |data|);
  }

  lemma OneIsZero(c: Byte)
    ensures c == Char(0) <==> Digit(c) == Some(0)
  {}

  /** The lookup leaves the table exactly when the first byte outside the alphabet is 128. */
  lemma TableOverrun(s: seq<Byte>)
    ensures Decoded(s) == OutOfRange <==> exists i :: 0 <= i < |s| && s[i] == 128 && forall k :: 0 <= k < i ==> Digit(s[k]).Some?
  {
    hide Value, ToBase, Leading;
    if i :| 0 <= i < |s| && s[i] == 128 && forall k :: 0 <= k < i ==> Digit(s[k]).Some? {
      BadAt(s, i);
    }
  }

  // Text

  predicate Trailing(b: Byte) { 0x80 <= b <= 0xBF }

  /** Well-formed UTF-8, section 4 of RFC 3629. */
  predicate Utf8(s: seq<Byte>) {
    || s == []
    || (s[0] <= 0x7F && Utf8(s[1..]))
    || (|s| >= 2 && 0xC2 <= s[0] <= 0xDF && Trailing(s[1]) && Utf8(s[2..]))
    || (|s| >= 3 && Utf8(s[3..]) && Trailing(s[2]) &&
        ((s[0] == 0xE0 && 0xA0 <= s[1] <= 0xBF) || (0xE1 <= s[0] <= 0xEC && Trailing(s[1])) ||
         (s[0] == 0xED && 0x80 <= s[1] <= 0x9F) || (0xEE <= s[0] <= 0xEF && Trailing(s[1]))))
    || (|s| >= 4 && Utf8(s[4..]) && Trailing(s[2]) && Trailing(s[3]) &&
        ((s[0] == 0xF0 && 0x90 <= s[1] <= 0xBF) || (0xF1 <= s[0] <= 0xF3 && Trailing(s[1])) ||
         (s[0] == 0xF4 && 0x80 <= s[1] <= 0x8F)))
  }

  /** A Unicode scalar value: a code point that is no surrogate. */
  predicate Scalar(c: nat) { c < 0xD800 || 0xE000 <= c < 0x11_0000 }

  /** The bytes of a character, section 3 of RFC 3629. */
  function Encode(c: nat): (bytes: seq<Byte>)
    requires Scalar(c)
  {
    if c < 0x80 then [c]
    else if c < 0x800 then [0xC0 + c / 64, 0x80 + c % 64]
    else if c < 0x1_0000 then [0xE0 + c / 4096, 0x80 + c / 64 % 64, 0x80 + c % 64]
    else [0xF0 + c / 262144, 0x80 + c / 4096 % 64, 0x80 + c / 64 % 64, 0x80 + c % 64]
  }

  function TextOf(cs: seq<nat>): (s: seq<Byte>)
    requires forall i :: 0 <= i < |cs| ==> Scalar(cs[i])
  {
    if cs == [] then [] else Encode(cs[0]) + TextOf(cs[1..])
  }

  lemma CharacterFirst(c: nat, rest: seq<Byte>)
    requires Scalar(c) && Utf8(rest)
    ensures Utf8(Encode(c) + rest)
  {
    var s, n := Encode(c) + rest, |Encode(c)|;
    assert s[n..] == rest && forall i :: 0 <= i < n ==> s[i] == Encode(c)[i];
  }

  /** Every text is well-formed. */
  lemma {:induction false} TextWellFormed(cs: seq<nat>)
    requires forall i :: 0 <= i < |cs| ==> Scalar(cs[i])
    ensures Utf8(TextOf(cs))
  {
    hide Utf8, Scalar, Encode;
    if cs == [] {
      NoText();
    } else {
      TextWellFormed(cs[1..]);
      CharacterFirst(cs[0], TextOf(cs[1..]));
    }
  }

  lemma NoText()
    ensures Utf8([]) && TextOf([]) == []
  {}

  lemma SixBits(x: nat, y: nat)
    requires y < 64
    ensures (64 * x + y) / 64 == x && (64 * x + y) % 64 == y
  {}

  lemma EncodeTwo(x: nat, y: nat)
    requires 2 <= x < 32 && y < 64
    ensures Scalar(64 * x + y) && Encode(64 * x + y) == [0xC0 + x, 0x80 + y]
  {
    SixBits(x, y);
  }

  lemma EncodeThree(x: nat, y: nat, z: nat)
    requires x < 16 && y < 64 && z < 64 && (x == 0 ==> y >= 32) && (x == 13 ==> y < 32)
    ensures var c := 64 * (64 * x + y) + z; Scalar(c) && Encode(c) == [0xE0 + x, 0x80 + y, 0x80 + z]
  {
    SixBits(x, y);
    SixBits(64 * x + y, z);
    assert (64 * (64 * x + y) + z) / 4096 == x;
  }

  lemma EncodeFour(x: nat, y: nat, z: nat, w: nat)
    requires x <= 4 && y < 64 && z < 64 && w < 64 && (x == 0 ==> y >= 16) && (x == 4 ==> y < 16)
    ensures var c := 64 * (64 * (64 * x + y) + z) + w;
            Scalar(c) && Encode(c) == [0xF0 + x, 0x80 + y, 0x80 + z, 0x80 + w]
  {
    SixBits(x, y);
    SixBits(64 * x + y, z);
    SixBits(64 * (64 * x + y) + z, w);
    assert (64 * (64 * (64 * x + y) + z) + w) / 4096 == 64 * x + y;
    assert (64 * (64 * (64 * x + y) + z) + w) / 262144 == x;
  }

  /** What well-formed bytes begin with. */
  lemma Utf8Starts(s: seq<Byte>)
    requires Utf8(s) && s != []
    ensures 0x80 <= s[0] <= 0xDF ==> |s| >= 2 && 0xC2 <= s[0] && Trailing(s[1]) && Utf8(s[2..])
    ensures 0xE0 <= s[0] <= 0xEF ==>
              && |s| >= 3 && Trailing(s[1]) && Trailing(s[2]) && Utf8(s[3..])
              && (s[0] == 0xE0 ==> s[1] >= 0xA0) && (s[0] == 0xED ==> s[1] < 0xA0)
    ensures 0xF0 <= s[0] ==>
              && |s| >= 4 && s[0] <= 0xF4 && Trailing(s[1]) && Trailing(s[2]) && Trailing(s[3]) && Utf8(s[4..])
              && (s[0] == 0xF0 ==> s[1] >= 0x90) && (s[0] == 0xF4 ==> s[1] < 0x90)
    ensures s[0] <= 0x7F ==> Utf8(s[1..])
  {}

  /** The character that well-formed bytes begin with. */
  lemma FirstCharacter(s: seq<Byte>) returns (c: nat)
    requires Utf8(s) && s != []
    ensures Scalar(c) && 0 < |Encode(c)| <= |s| && s[..|Encode(c)|] == Encode(c) && Utf8(s[|Encode(c)|..])
  {
    Utf8Starts(s);
    hide Utf8;
    var a: nat := s[0];
    if a <= 0x7F {
      c := a;
    } else {
      hide Encode, Scalar;
      var x: nat := s[1] - 0x80;
      if a <= 0xDF {
        EncodeTwo(a - 0xC0, x);
        c := 64 * (a - 0xC0) + x;
      } else {
        var y: nat := s[2] - 0x80;
        if a <= 0xEF {
          EncodeThree(a - 0xE0, x, y);
          c := 64 * (64 * (a - 0xE0) + x) + y;
        } else {
          var z: nat := s[3] - 0x80;
          EncodeFour(a - 0xF0, x, y, z);
          c := 64 * (64 * (64 * (a - 0xF0) + x) + y) + z;
        }
      }
    }
  }

  /** And whatever is well-formed is the text of some characters. */
  lemma {:induction false} WellFormedText(s: seq<Byte>) returns (cs: seq<nat>)
    requires Utf8(s)
    ensures (forall i :: 0 <= i < |cs| ==> Scalar(cs[i])) && TextOf(cs) == s
  {
    hide Utf8, Scalar, Encode;
    cs := [];
    if s != [] {
      var c := FirstCharacter(s);
      var rest := WellFormedText(s[|Encode(c)|..]);
      cs := [c] + rest;
      assert cs[1..] == rest && s == s[..|Encode(c)|] + s[|Encode(c)|..];
    }
  }

  /** The alphabet is ASCII, so the first byte of text outside it starts a character. */
  lemma {:induction false} FirstBadStarts(s: seq<Byte>, i: nat)
    requires Utf8(s) && i < |s| && forall k :: 0 <= k < i ==> Digit(s[k]).Some?
    ensures s[i] != 128
  {
    if i > 0 {
      assert Digit(s[0]).Some?;
      assert s[0] < 128;
      FirstBadStarts(s[1..], i - 1);
    }
  }

  /** No text makes the lookup leave the table. */
  lemma TextInTable(s: seq<Byte>)
    requires Utf8(s)
    ensures Decoded(s) != OutOfRange
  {
    hide Decoded, Utf8, Digit;
    TableOverrun(s);
    if i :| 0 <= i < |s| && s[i] == 128 && forall k :: 0 <= k < i ==> Digit(s[k]).Some? {
      FirstBadStarts(s, i);
    }
  }

  // Base58Check

  /** The value of bytes, the least first. */
  function LittleEndian(bytes: seq<Byte>): (v: nat) {
    if bytes == [] then 0 else bytes[0] + 256 * LittleEndian(bytes[1..])
  }

  lemma {:induction false} LittleEndianUnique(a: seq<Byte>, b: seq<Byte>)
    requires |a| == |b| && LittleEndian(a) == LittleEndian(b)
    ensures a == b
  {
    if a != [] {
      LittleEndianUnique(a[1..], b[1..]);
      assert a == [a[0]] + a[1..] && b == [b[0]] + b[1..];
    }
  }

  /** into_le_low_u32: the first eight bytes as a number, cut to 32 bits. */
  function LowWord(hash: seq<Byte>): (v: nat)
    requires |hash| == 32
  {
    LittleEndian(hash[..8]) % 0x1_0000_0000
  }

  lemma LittleEndianStep(h: seq<Byte>, i: nat)
    requires i < |h|
    ensures var first: nat := h[i]; LittleEndian(h[i..]) == first + 256 * LittleEndian(h[i + 1..])
    ensures LittleEndian(h[|h|..]) == 0
  {
    assert h[i..][1..] == h[i + 1..];
  }

  /** The cut leaves the first four bytes. */
  lemma LowWordIs(hash: seq<Byte>)
    requires |hash| == 32
    ensures LowWord(hash) == LittleEndian(hash[..4])
  {
    hide LittleEndian;
    var h, low := hash[..8], hash[..4];
    assert h[0..] == h && low[0..] == low;
    LittleEndianStep(h, 0);
    LittleEndianStep(h, 1);
    LittleEndianStep(h, 2);
    LittleEndianStep(h, 3);
    LittleEndianStep(low, 0);
    LittleEndianStep(low, 1);
    LittleEndianStep(low, 2);
    LittleEndianStep(low, 3);
    assert LittleEndian(h) == LittleEndian(low) + 0x1_0000_0000 * LittleEndian(h[4..]);
    assert LittleEndian(low) < 0x1_0000_0000;
  }

  /** A hash of 32 bytes. */
  type Hasher = f: seq<Byte> -> seq<Byte> | forall x :: |f(x)| == 32 witness x => seq(32, _ => 0)

  ghost function CheckEncoded(hash: Hasher, data: seq<Byte>): (s: seq<Byte>) {
    Encoded(data + hash(data)[..4])
  }

  ghost function CheckDecoded(hash: Hasher, s: seq<Byte>): (r: Result) {
    var d := Decoded(s);
    if !d.Ok? then d
    else if |d.bytes| < 4 then TooShort(|d.bytes|)
    else
      var k := |d.bytes| - 4;
      var expected, actual := LittleEndian(hash(d.bytes[..k])[..4]), LittleEndian(d.bytes[k..]);
      if expected != actual then BadChecksum(expected, actual) else Ok(d.bytes[..k])
  }

  lemma CheckDecodedIs(hash: Hasher, s: seq<Byte>)
    ensures !Decoded(s).Ok? ==> CheckDecoded(hash, s) == Decoded(s)
    ensures Decoded(s).Ok? && |Decoded(s).bytes| < 4 ==> CheckDecoded(hash, s) == TooShort(|Decoded(s).bytes|)
    ensures Decoded(s).Ok? && |Decoded(s).bytes| >= 4 ==>
              var bytes := Decoded(s).bytes;
              var k := |bytes| - 4;
              var expected, actual := LittleEndian(hash(bytes[..k])[..4]), LittleEndian(bytes[k..]);
              CheckDecoded(hash, s) == if expected != actual then BadChecksum(expected, actual) else Ok(bytes[..k])
  {
    hide Decoded, LittleEndian;
  }

  /** check_encode_slice */
  method CheckEncodeSlice(hash: Hasher, data: seq<Byte>) returns (s: seq<Byte>)
    ensures s == CheckEncoded(hash, data)
  {
    var checksum := hash(data);
    s := EncodeIter(data + checksum[0..4]);
  }

  /** from_check */
  method FromCheck(hash: Hasher, data: seq<Byte>) returns (r: Result)
    ensures r == CheckDecoded(hash, data)
  {
    hide *;
    CheckDecodedIs(hash, data);
    var ret := From(data);
    if !ret.Ok? { return ret; }
    if |ret.bytes| < 4 {
      return TooShort(|ret.bytes|);
    }
    var ckStart := |ret.bytes| - 4;
    var full := hash(ret.bytes[..ckStart]);
    assert ret.bytes[ckStart..ckStart + 4] == ret.bytes[ckStart..];
    LowWordIs(full);
    var expected := LowWord(full);
    var actual := LittleEndian(ret.bytes[ckStart..ckStart + 4]);
    if expected != actual {
      return BadChecksum(expected, actual);
    }
    r := Ok(ret.bytes[..ckStart]);
  }

  lemma CheckDecodeEncode(hash: Hasher, data: seq<Byte>)
    ensures CheckDecoded(hash, CheckEncoded(hash, data)) == Ok(data)
  {
    hide Decoded, Encoded, LittleEndian;
    var sum := hash(data)[..4];
    DecodeEncode(data + sum);
    assert (data + sum)[..|data|] == data && (data + sum)[|data|..] == sum;
  }

  lemma CheckEncodeDecode(hash: Hasher, s: seq<Byte>)
    requires CheckDecoded(hash, s).Ok?
    ensures CheckEncoded(hash, CheckDecoded(hash, s).bytes) == s
  {
    hide Decoded, Encoded, LittleEndian;
    var bytes := Decoded(s).bytes;
    var k := |bytes| - 4;
    LittleEndianUnique(hash(bytes[..k])[..4], bytes[k..]);
    assert bytes[..k] + bytes[k..] == bytes;
    EncodeDecode(s);
  }
}
