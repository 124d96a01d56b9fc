/** Mnemonic phrases: entropy and its checksum repacked from bytes into words of 11 bits, and back. */
module Mnemonics {
  import opened Arithmetic
  import opened Base58
  import opened Postorder
  import opened Wrappers

  datatype Error<W> = BadWord(word: W) | BadChecksum(expected: nat, actual: nat) | InvalidLength(length: nat)

  datatype Outcome<W, T> = Good(value: T) | Bad(error: Error<W>)

  // Powers of two

  lemma PowNext(n: nat)
    ensures Pow2(n + 1) == 2 * Pow2(n) && Pow2(0) == 1
  {
    hide Size;
  }

  lemma {:induction false} PowAdd(a: nat, b: nat)
    ensures Pow2(a + b) == Mul(Pow2(a), Pow2(b))
  {
    hide Pow2, Mul;
    PowNext(b);
    MulTwice(Pow2(a), if b == 0 then 0 else Pow2(b - 1));
    if b > 0 {
      PowAdd(a, b - 1);
      PowNext(a + b - 1);
      PowNext(b - 1);
    }
  }

  lemma SmallPowers()
    ensures Pow2(3) == 8 && Pow2(4) == 16 && Pow2(5) == 32 && Pow2(6) == 64 && Pow2(7) == 128 && Pow2(8) == 256
    ensures Pow2(0) == 1 && Pow2(1) == 2 && Pow2(2) == 4 && Pow2(11) == 2048
  {
    hide Pow2;
    PowNext(0);
    PowNext(1);
    PowNext(2);
    PowNext(3);
    PowNext(4);
    PowNext(5);
    PowNext(6);
    PowNext(7);
    PowNext(8);
    PowNext(9);
    PowNext(10);
  }

  /** A number shifted right by n bits, and the bits shifted out. */
  function Quot(v: nat, n: nat): (q: nat) { v / Pow2(n) }

  function Rest(v: nat, n: nat): (r: nat) { v % Pow2(n) }

  lemma QuotRest(v: nat, n: nat)
    ensures v == Mul(Quot(v, n), Pow2(n)) + Rest(v, n) && Rest(v, n) < Pow2(n)
  {
    hide Pow2, Mul;
    DivMod(v, Pow2(n));
  }

  lemma QuotUnique(v: nat, n: nat, q: nat, r: nat)
    requires v == Mul(q, Pow2(n)) + r && r < Pow2(n)
    ensures Quot(v, n) == q && Rest(v, n) == r
  {
    hide Pow2, Mul;
    MulDivUnique(v, Pow2(n), q, r);
  }

  lemma QuotBelow(v: nat, n: nat, q: nat)
    requires v < Mul(q, Pow2(n))
    ensures Quot(v, n) < q
  {
    hide Pow2;
    if Quot(v, n) >= q { MulMonotone(q, Quot(v, n), Pow2(n)); }
  }

  /** Bit i of a number. */
  predicate TestBit(x: nat, i: nat) {
    Quot(x, i) % 2 == 1
  }

  function BitOr(x: nat, y: nat): (r: nat)
    decreases x + y
  {
    if x == 0 then y else if y == 0 then x
    else (if x % 2 == 1 || y % 2 == 1 then 1 else 0) + 2 * BitOr(x / 2, y / 2)
  }

  lemma BitOrZero(x: nat)
    ensures BitOr(x, 0) == x
  {}

  lemma BitOrStep(x: nat, y: nat)
    ensures BitOr(x, y) == (if x % 2 == 1 || y % 2 == 1 then 1 else 0) + 2 * BitOr(x / 2, y / 2)
  {}

  /** Setting a bit above all that are set adds its value. */
  lemma {:induction false} OrAbove(x: nat, k: nat)
    requires x < Pow2(k)
    ensures BitOr(x, Pow2(k)) == x + Pow2(k)
  {
    hide Pow2, BitOr;
    BitOrStep(x, Pow2(k));
    if k == 0 {
      PowNext(0);
      BitOrZero(0);
    } else {
      PowNext(k - 1);
      OrAbove(x / 2, k - 1);
    }
  }

  /** Setting a bit below all that are set adds its value. */
  lemma {:induction false} OrBelow(x: nat, k: nat)
    requires x % Pow2(k + 1) == 0
    ensures BitOr(x, Pow2(k)) == x + Pow2(k)
  {
    hide Pow2, BitOr;
    BitOrStep(x, Pow2(k));
    PowNext(k);
    if k == 0 {
      PowNext(0);
      BitOrZero(x / 2);
    } else {
      PowNext(k - 1);
      HalfMultiple(x, Pow2(k));
      OrBelow(x / 2, k - 1);
    }
  }

  lemma HalfMultiple(x: nat, d: nat)
    requires d > 0 && x % (2 * d) == 0
    ensures x % 2 == 0 && x / 2 % d == 0 && x % d == 0 && (x + d) % d == 0
  {
    var q := x / (2 * d);
    assert x == q * (2 * d) && q * (2 * d) == 2 * (q * d) && (q + q) * d == 2 * (q * d);
    DivUnique(x / 2, d, q, 0);
    DivUnique(x, d, q + q, 0);
    assert (q + q + 1) * d == (q + q) * d + d;
    DivUnique(x + d, d, q + q + 1, 0);
  }

  /** Bits peel off a number from the top. */
  lemma TopBit(x: nat, i: nat)
    ensures Quot(x, i) == 2 * (Quot(x, i + 1)) + if TestBit(x, i) then 1 else 0
  {
    hide Pow2;
    PowNext(i);
    DivTwice(x, Pow2(i));
  }

  /** Dividing by twice a number. */
  lemma DivTwice(x: nat, d: nat)
    requires d > 0
    ensures x / (2 * d) == x / d / 2
    ensures x % (2 * d) == x % d + if x / d % 2 == 1 then d else 0
  {
    hide Mul;
    var q, r := x / d / 2, x / d % 2;
    DivMod(x, d);
    MulSplit(2 * q, r, d);
    MulTwice(q, d);
    MulStep(0, d);
    if r == 0 { MulDivUnique(x, 2 * d, q, x % d); } else { MulDivUnique(x, 2 * d, q, d + x % d); }
  }

  /** Bits pile up to a number from the bottom. */
  lemma BottomBit(x: nat, i: nat)
    ensures Rest(x, i + 1) == Rest(x, i) + if TestBit(x, i) then Pow2(i) else 0
  {
    hide Pow2;
    PowNext(i);
    DivTwice(x, Pow2(i));
  }

  lemma ValueMul(e: nat, ds: seq<nat>, d: nat)
    ensures Value(Pow2(e), ds + [d]) == Mul(Value(Pow2(e), ds), Pow2(e)) + d
    ensures Value(Pow2(e), []) == 0
  {
    hide Pow2, Value;
    ValueStep(Pow2(e), ds, d);
  }

  // Numbers of a fixed length

  /** The n digits of v, each of e bits. */
  function Fixed(e: nat, n: nat, v: nat): (ds: seq<nat>)
    ensures |ds| == n
  {
    if n == 0 then [] else Fixed(e, n - 1, Quot(v, e)) + [Rest(v, e)]
  }

  lemma {:induction false} FixedValue(e: nat, n: nat, v: nat)
    requires v < Pow2(e * n) && (e == 8 || e == 11)
    ensures InBase(Pow2(e), Fixed(e, n, v)) && Value(Pow2(e), Fixed(e, n, v)) == v
  {
    hide Pow2, Value, Mul, Quot, Rest;
    PowNext(0);
    SmallPowers();
    ValueMul(e, [], 0);
    if n > 0 {
      PowAdd(e * (n - 1), e);
      assert e * (n - 1) + e == e * n;
      QuotBelow(v, e, Pow2(e * (n - 1)));
      QuotRest(v, e);
      FixedValue(e, n - 1, Quot(v, e));
      ValueMul(e, Fixed(e, n - 1, Quot(v, e)), Rest(v, e));
    }
  }

  lemma {:induction false} ValueFixed(e: nat, ds: seq<nat>)
    requires InBase(Pow2(e), ds) && (e == 8 || e == 11)
    ensures Value(Pow2(e), ds) < Pow2(e * |ds|) && Fixed(e, |ds|, Value(Pow2(e), ds)) == ds
  {
    hide Pow2, Value, Mul, Quot, Rest;
    PowNext(0);
    SmallPowers();
    ValueMul(e, [], 0);
    if ds != [] {
      var n := |ds| - 1;
      var v, d := Value(Pow2(e), ds[..n]), ds[n];
      ValueFixed(e, ds[..n]);
      PowAdd(e * n, e);
      assert e * n + e == e * (n + 1);
      assert ds == ds[..n] + [d];
      ValueMul(e, ds[..n], d);
      QuotUnique(Mul(v, Pow2(e)) + d, e, v, d);
      MulAtMost(v, Pow2(e * n), Pow2(e));
    }
  }

  // What the two directions compute

  predicate EntropyLength(n: nat) { n == 16 || n == 20 || n == 24 || n == 28 || n == 32 }

  predicate PhraseLength(n: nat) { n == 12 || n == 15 || n == 18 || n == 21 || n == 24 }

  /** From 128 to 256 bits in steps of 32, which with their checksum are three words for every 32 bits. */
  lemma Lengths(n: nat)
    ensures EntropyLength(n) <==> 128 <= 8 * n <= 256 && (8 * n) % 32 == 0
    ensures PhraseLength(n) <==> n % 3 == 0 && EntropyLength(4 * (n / 3))
    ensures EntropyLength(n) ==> PhraseLength(3 * (n / 4)) && 11 * (3 * (n / 4)) == 8 * n + n / 4
  {}

  ghost predicate Dictionary<W>(list: seq<W>) {
    |list| == 2048 && forall i, j :: 0 <= i < j < |list| ==> list[i] != list[j]
  }

  /** The checksum: the first bits of the hash of the entropy. */
  function Checksum(hash: seq<Byte> -> Byte, entropy: seq<Byte>, bits: nat): (r: nat)
    requires bits <= 8
  {
    Quot(hash(entropy), 8 - bits)
  }

  /** The entropy with its checksum behind it, as one number. */
  ghost function Number(hash: seq<Byte> -> Byte, entropy: seq<Byte>): (v: nat)
    requires EntropyLength(|entropy|)
  {
    var bits := |entropy| / 4;
    Mul(Value(256, entropy), Pow2(bits)) + Checksum(hash, entropy, bits)
  }

  lemma ChecksumSmall(hash: seq<Byte> -> Byte, entropy: seq<Byte>, bits: nat)
    requires bits <= 8
    ensures Checksum(hash, entropy, bits) < Pow2(bits)
  {
    hide Pow2, Mul;
    SmallPowers();
    PowAdd(bits, 8 - bits);
    QuotBelow(hash(entropy), 8 - bits, Pow2(bits));
  }

  lemma NumberIs(hash: seq<Byte> -> Byte, entropy: seq<Byte>, bits: nat)
    requires EntropyLength(|entropy|) && bits == |entropy| / 4
    ensures bits <= 8 && Number(hash, entropy) == Mul(Value(256, entropy), Pow2(bits)) + Checksum(hash, entropy, bits)
    ensures 8 * |entropy| + bits == 11 * (3 * bits) && |entropy| == 4 * bits
  {
    hide Pow2, Mul, Value, Checksum;
  }

  lemma NumberParts(hash: seq<Byte> -> Byte, entropy: seq<Byte>, bits: nat)
    requires EntropyLength(|entropy|) && bits == |entropy| / 4
    ensures bits <= 8 && Quot(Number(hash, entropy), bits) == Value(256, entropy)
    ensures Rest(Number(hash, entropy), bits) == Checksum(hash, entropy, bits)
  {
    hide *;
    NumberIs(hash, entropy, bits);
    ChecksumSmall(hash, entropy, bits);
    QuotUnique(Number(hash, entropy), bits, Value(256, entropy), Checksum(hash, entropy, bits));
  }

  lemma NumberSmall(hash: seq<Byte> -> Byte, entropy: seq<Byte>, bits: nat)
    requires EntropyLength(|entropy|) && bits == |entropy| / 4
    ensures Number(hash, entropy) < Pow2(11 * (3 * bits))
  {
    hide *;
    NumberIs(hash, entropy, bits);
    ChecksumSmall(hash, entropy, bits);
    SmallPowers();
    BytesInBase(entropy);
    ValueFixed(8, entropy);
    MulAtMost(Value(256, entropy), Pow2(8 * |entropy|), Pow2(bits));
    PowAdd(8 * |entropy|, bits);
  }

  lemma BytesInBase(entropy: seq<Byte>)
    ensures InBase(256, entropy)
  {}

  ghost function Phrase<W>(list: seq<W>, hash: seq<Byte> -> Byte, entropy: seq<Byte>): (r: Outcome<W, seq<W>>)
    requires |list| == 2048
  {
    if !EntropyLength(|entropy|) then Bad(InvalidLength(|entropy|))
    else
      var n := 3 * (|entropy| / 4);
      var indexes := Fixed(11, n, Number(hash, entropy));
      SmallPowers();
      FixedInBase(11, n, Number(hash, entropy));
      Good(WordsAt(list, indexes))
  }

  function WordsAt<W>(list: seq<W>, indexes: seq<nat>): (words: seq<W>)
    requires forall i :: 0 <= i < |indexes| ==> indexes[i] < |list|
    ensures |words| == |indexes| && forall i :: 0 <= i < |indexes| ==> words[i] == list[indexes[i]]
  {
    seq(|indexes|, i requires 0 <= i < |indexes| => list[indexes[i]])
  }

  lemma {:induction false} FixedInBase(e: nat, n: nat, v: nat)
    ensures InBase(Pow2(e), Fixed(e, n, v))
  {
    hide Pow2, Quot, Rest;
    PowNext(0);
    QuotRest(v, e);
    if n > 0 { FixedInBase(e, n - 1, Quot(v, e)); }
  }

  /** The place of a word in the list. */
  ghost function Search<W>(list: seq<W>, word: W): (r: Option<nat>)
    ensures r.Some? ==> r.value < |list| && list[r.value] == word
    ensures r.None? ==> word !in list
  {
    if list == [] then None
    else if list[|list| - 1] == word then Some(|list| - 1)
    else Search(list[..|list| - 1], word)
  }

  /** The order of words: by the first character that differs, a prefix first. */
  predicate Less(a: string, b: string) {
    b != [] && (a == [] || a[0] < b[0] || (a[0] == b[0] && Less(a[1..], b[1..])))
  }

  lemma {:induction false} LessOrder(a: string, b: string)
    ensures a == b <==> !Less(a, b) && !Less(b, a)
    ensures !(Less(a, b) && Less(b, a))
  {
    if a != [] && b != [] {
      assert a == [a[0]] + a[1..] && b == [b[0]] + b[1..];
      LessOrder(a[1..], b[1..]);
    }
  }

  lemma {:induction false} LessTransitive(a: string, b: string, c: string)
    requires Less(a, b) && Less(b, c)
    ensures Less(a, c)
  {
    if a != [] && a[0] == b[0] == c[0] { LessTransitive(a[1..], b[1..], c[1..]); }
  }

  ghost predicate Alphabetical(list: seq<string>) {
    forall i, j :: 0 <= i < j < |list| ==> Less(list[i], list[j])
  }

  lemma AlphabeticalDistinct(list: seq<string>)
    requires Alphabetical(list) && |list| == 2048
    ensures Dictionary(list)
  {
    hide Less;
    forall i, j | 0 <= i < j < |list| ensures list[i] != list[j] { LessOrder(list[i], list[j]); }
  }

  /** What lies before a smaller word, or after a greater one, is not the word. */
  lemma Halves(list: seq<string>, word: string, mid: nat)
    requires Alphabetical(list) && mid < |list|
    ensures Less(list[mid], word) ==> forall i :: 0 <= i <= mid ==> list[i] != word
    ensures Less(word, list[mid]) ==> forall i :: mid <= i < |list| ==> list[i] != word
  {
    hide Less;
    LessOrder(list[mid], word);
  }

  /** The place of a word in an alphabetical list is the only one. */
  lemma OnlyPlace(list: seq<string>, word: string, i: nat)
    requires Alphabetical(list) && i < |list| && list[i] == word
    ensures Search(list, word) == Some(i)
  {
    hide Search, Less;
    var found := Search(list, word);
    assert list[i] in list;
    LessOrder(word, word);
  }

  /** search: halving finds what looking at every word finds. */
  method BinarySearch(list: seq<string>, word: string) returns (r: Option<nat>)
    requires Alphabetical(list)
    ensures r == Search(list, word)
  {
    hide Search, Less, Alphabetical;
    var low, high := 0, |list|;
    while low < high
      invariant low <= high <= |list|
      invariant forall i :: 0 <= i < |list| && !(low <= i < high) ==> list[i] != word
    {
      var mid := low + (high - low) / 2;
      Halves(list, word, mid);
      LessOrder(list[mid], word);
      if list[mid] == word {
        OnlyPlace(list, word, mid);
        return Some(mid);
      } else if Less(list[mid], word) {
        low := mid + 1;
      } else {
        high := mid;
      }
    }
    r := None;
  }

  /** How many words before the first that is not in the list. */
  ghost function Known<W>(list: seq<W>, words: seq<W>): (n: nat)
    ensures n <= |words| && (forall i :: 0 <= i < n ==> words[i] in list) && (n < |words| ==> words[n] !in list)
  {
    if words == [] || words[0] !in list then 0 else 1 + Known(list, words[1..])
  }

  ghost function Indexes<W>(list: seq<W>, words: seq<W>): (xs: seq<nat>)
    requires Known(list, words) == |words|
    ensures |xs| == |words| && forall i :: 0 <= i < |xs| ==> xs[i] < |list| && list[xs[i]] == words[i]
  {
    seq(|words|, i requires 0 <= i < |words| => Search(list, words[i]).value)
  }

  ghost function Entropy<W>(list: seq<W>, hash: seq<Byte> -> Byte, words: seq<W>): (r: Outcome<W, seq<Byte>>)
    requires |list| == 2048
  {
    if !PhraseLength(|words|) then Bad(InvalidLength(|words|))
    else if Known(list, words) < |words| then Bad(BadWord(words[Known(list, words)]))
    else
      var bits := |words| / 3;
      var v := Value(2048, Indexes(list, words));
      SmallPowers();
      FixedInBase(8, 4 * bits, Quot(v, bits));
      var entropy: seq<Byte> := Fixed(8, 4 * bits, Quot(v, bits));
      var actual := Checksum(hash, entropy, bits);
      if actual != Rest(v, bits) then Bad(Error.BadChecksum(Rest(v, bits), actual)) else Good(entropy)
  }

  lemma IndexesUnique<W>(list: seq<W>, words: seq<W>, xs: seq<nat>)
    requires Dictionary(list) && |xs| == |words| && forall i :: 0 <= i < |xs| ==> xs[i] < |list| && list[xs[i]] == words[i]
    ensures Known(list, words) == |words| && Indexes(list, words) == xs
  {
    var ys := Indexes(list, words);
    forall i | 0 <= i < |xs| ensures ys[i] == xs[i] {}
  }

  lemma PhraseIs<W>(list: seq<W>, hash: seq<Byte> -> Byte, entropy: seq<Byte>, bits: nat)
    requires |list| == 2048 && EntropyLength(|entropy|) && bits == |entropy| / 4
    ensures var indexes := Fixed(11, 3 * bits, Number(hash, entropy));
            && (forall i :: 0 <= i < |indexes| ==> indexes[i] < |list|)
            && Phrase(list, hash, entropy) == Good(WordsAt(list, indexes))
            && PhraseLength(3 * bits)
  {
    hide Number, Fixed, Pow2;
    SmallPowers();
    FixedInBase(11, 3 * bits, Number(hash, entropy));
  }

  /** What a phrase of known words says. */
  lemma EntropyIs<W>(list: seq<W>, hash: seq<Byte> -> Byte, words: seq<W>, bits: nat)
    requires |list| == 2048 && PhraseLength(|words|) && bits == |words| / 3 && Known(list, words) == |words|
    ensures var v := Value(2048, Indexes(list, words));
            var entropy := Fixed(8, 4 * bits, Quot(v, bits));
            && bits <= 8 && |words| == 3 * bits && EntropyLength(4 * bits) && InBase(256, entropy)
            && Entropy(list, hash, words) ==
               if Checksum(hash, entropy, bits) != Rest(v, bits)
               then Bad(Error.BadChecksum(Rest(v, bits), Checksum(hash, entropy, bits)))
               else Good(entropy)
  {
    hide Fixed, Pow2, Value, Indexes, Known, Checksum, Quot, Rest;
    SmallPowers();
    FixedInBase(8, 4 * bits, Quot(Value(2048, Indexes(list, words)), bits));
  }

  /** to_entropy(from_entropy(e)) == e. */
  lemma EntropyOfPhrase<W>(list: seq<W>, hash: seq<Byte> -> Byte, entropy: seq<Byte>)
    requires Dictionary(list) && EntropyLength(|entropy|)
    ensures Entropy(list, hash, Phrase(list, hash, entropy).value) == Good(entropy)
  {
    hide *;
    DictionaryIs(list);
    var bits := |entropy| / 4;
    var v := Number(hash, entropy);
    var indexes := Fixed(11, 3 * bits, v);
    PhraseIs(list, hash, entropy, bits);
    var words := WordsAt(list, indexes);
    NumberIs(hash, entropy, bits);
    NumberParts(hash, entropy, bits);
    NumberSmall(hash, entropy, bits);
    SmallPowers();
    FixedValue(11, 3 * bits, v);
    IndexesUnique(list, words, indexes);
    BytesInBase(entropy);
    ValueFixed(8, entropy);
    EntropyIs(list, hash, words, bits);
  }

  lemma DictionaryIs<W>(list: seq<W>)
    requires Dictionary(list)
    ensures |list| == 2048
  {}

  lemma EntropyGood<W>(list: seq<W>, hash: seq<Byte> -> Byte, words: seq<W>)
    requires |list| == 2048 && Entropy(list, hash, words).Good?
    ensures PhraseLength(|words|) && Known(list, words) == |words|
  {
    hide Fixed, Pow2, Value, Indexes, Known, Checksum, Quot, Rest, PhraseLength;
  }

  /** from_entropy(to_entropy(m)) == m for every accepted phrase. */
  lemma PhraseOfEntropy<W>(list: seq<W>, hash: seq<Byte> -> Byte, words: seq<W>)
    requires Dictionary(list) && Entropy(list, hash, words).Good?
    ensures Phrase(list, hash, Entropy(list, hash, words).value) == Good(words)
  {
    hide *;
    DictionaryIs(list);
    EntropyGood(list, hash, words);
    var bits, xs := |words| / 3, Indexes(list, words);
    var v := Value(2048, xs);
    EntropyIs(list, hash, words, bits);
    var entropy := Entropy(list, hash, words).value;
    SmallPowers();
    InBaseIs(xs);
    ValueFixed(11, xs);
    PowAdd(8 * (4 * bits), bits);
    assert 8 * (4 * bits) + bits == 11 * |words|;
    QuotBelow(v, bits, Pow2(8 * (4 * bits)));
    FixedValue(8, 4 * bits, Quot(v, bits));
    QuotRest(v, bits);
    NumberIs(hash, entropy, bits);
    PhraseIs(list, hash, entropy, bits);
    assert WordsAt(list, xs) == words;
  }

  lemma InBaseIs(xs: seq<nat>)
    requires forall i :: 0 <= i < |xs| ==> xs[i] < 2048
    ensures InBase(2048, xs)
  {}

  // Setting bits in digits

  /** Adding a power of two to one digit. */
  lemma {:induction false} AddAt(e: nat, ds: seq<nat>, i: nat, s: nat)
    requires i < |ds|
    ensures Value(Pow2(e), ds[i := ds[i] + Pow2(s)]) == Value(Pow2(e), ds) + Pow2(Mul(|ds| - 1 - i, e) + s)
  {
    hide *;
    var n := |ds| - 1;
    var rest, d, ds' := ds[..n], ds[n], ds[i := ds[i] + Pow2(s)];
    assert ds == rest + [d];
    ValueMul(e, rest, d);
    MulStep(if i == n then 0 else n - 1 - i, e);
    if i == n {
      assert ds' == rest + [d + Pow2(s)];
      ValueMul(e, rest, d + Pow2(s));
    } else {
      var rest' := rest[i := rest[i] + Pow2(s)];
      assert ds' == rest' + [d];
      ValueMul(e, rest', d);
      AddAt(e, rest, i, s);
      var p := Mul(n - 1 - i, e) + s;
      PowAdd(p, e);
      MulSplit(Value(Pow2(e), rest), Pow2(p), Pow2(e));
    }
  }

  /** The first loc bits of the words hold the number p, the rest are zero. */
  ghost predicate Packing(ws: seq<nat>, loc: nat, p: nat)
  {
    && loc <= 11 * |ws| && InBase(2048, ws)
    && Value(2048, ws) == Mul(p, Pow2(11 * |ws| - loc))
    && (loc < 11 * |ws| ==> Rest(ws[loc / 11], 11 - loc % 11) == 0)
    && (forall w :: loc / 11 < w < |ws| ==> ws[w] == 0)
  }

  lemma PackingIs(ws: seq<nat>, loc: nat, p: nat)
    ensures Packing(ws, loc, p) <==>
              && loc <= 11 * |ws| && InBase(2048, ws)
              && Value(2048, ws) == Mul(p, Pow2(11 * |ws| - loc))
              && (loc < 11 * |ws| ==> Rest(ws[loc / 11], 11 - loc % 11) == 0)
              && (forall w :: loc / 11 < w < |ws| ==> ws[w] == 0)
  {
    hide Value, Mul, Pow2, Rest, InBase;
  }

  /** Setting a free bit of a word. */
  lemma FreeBit(x: nat, s: nat)
    requires s <= 10 && Rest(x, s + 1) == 0 && x < 2048
    ensures BitOr(x, Pow2(s)) == x + Pow2(s) < 2048
    ensures Rest(x, s) == 0 && Rest(x + Pow2(s), s) == 0
  {
    hide Pow2, BitOr, Mul;
    FreePlace(x, s);
    FreeRest(x, s);
    OrBelow(x, s);
  }

  /** A multiple of the next power below 2048 has room for the bit. */
  lemma FreePlace(x: nat, s: nat)
    requires s <= 10 && Rest(x, s + 1) == 0 && x < 2048
    ensures x + Pow2(s) < 2048
  {
    hide Pow2, Mul;
    PowNext(s);
    SmallPowers();
    PowAdd(11 - (s + 1), s + 1);
    MulDivUnique(2048, Pow2(s + 1), Pow2(11 - (s + 1)), 0);
    MultiplesApart(x, 2048, Pow2(s + 1));
  }

  lemma FreeRest(x: nat, s: nat)
    requires Rest(x, s + 1) == 0
    ensures Rest(x, s) == 0 && Rest(x + Pow2(s), s) == 0
  {
    hide Pow2, Mul;
    PowNext(s);
    HalfMultiple(x, Pow2(s));
  }

  lemma RestZero(n: nat)
    ensures Rest(0, n) == 0
  {
    hide Pow2, Mul;
    MulTwice(0, Pow2(n));
    QuotUnique(0, n, 0, 0);
  }

  lemma PackStep(ws: seq<nat>, loc: nat, p: nat, bit: bool)
    requires Packing(ws, loc, p) && loc < 11 * |ws|
    ensures var w, s := loc / 11, 10 - loc % 11;
            && w < |ws|
            && Packing(ws[w := BitOr(ws[w], if bit then Pow2(s) else 0)], loc + 1, 2 * p + if bit then 1 else 0)
  {
    hide *;
    PackingIs(ws, loc, p);
    var w, s, r := loc / 11, 10 - loc % 11, 11 * |ws| - loc - 1;
    InBaseAt(2048, ws, w);
    FreeBit(ws[w], s);
    BitOrZero(ws[w]);
    var x := BitOr(ws[w], if bit then Pow2(s) else 0);
    var ws' := ws[w := x];
    InBaseUpdate(2048, ws, w, x);
    SmallPowers();
    AddAt(11, ws, w, s);
    MulIs(|ws| - 1 - w, 11);
    PowNext(r);
    MulTwice(p, Pow2(r));
    MulStep(2 * p, Pow2(r));
    if !bit { assert ws' == ws; }
    RestZero(11);
    if loc % 11 == 10 {
      assert (loc + 1) / 11 == w + 1;
    } else {
      assert (loc + 1) / 11 == w && 11 - (loc + 1) % 11 == s;
    }
    PackingIs(ws', loc + 1, 2 * p + if bit then 1 else 0);
  }

  lemma InBaseAt(b: nat, ds: seq<nat>, i: nat)
    requires InBase(b, ds) && i < |ds|
    ensures ds[i] < b
  {}

  lemma InBaseUpdate(b: nat, ds: seq<nat>, i: nat, x: nat)
    requires InBase(b, ds) && i < |ds| && x < b
    ensures InBase(b, ds[i := x])
  {}

  /** The n bits of x, the greatest first, go to the next free places. */
  method PushBits(indexes: seq<nat>, start: nat, x: nat, n: nat, ghost p: nat) returns (r: seq<nat>, loc: nat)
    requires Packing(indexes, start, p) && start + n <= 11 * |indexes| && x < Pow2(n)
    ensures Packing(r, loc, Mul(p, Pow2(n)) + x) && loc == start + n && |r| == |indexes|
  {
    hide *;
    r, loc := indexes, start;
    ghost var q := p;
    PowNext(0);
    MulTwice(p, 1);
    QuotWhole(x, n);
    for i := n downto 0
      invariant loc == start + (n - i) && |r| == |indexes|
      invariant Packing(r, loc, q) && q == Mul(p, Pow2(n - i)) + Quot(x, i)
    {
      var bit := TestBit(x, i);
      PackStep(r, loc, q, bit);
      TopBit(x, i);
      PowNext(n - i - 1);
      MulTwice(p, Pow2(n - i - 1));
      q := 2 * q + if bit then 1 else 0;
      r := r[loc / 11 := BitOr(r[loc / 11], if bit then Pow2(10 - loc % 11) else 0)];
      loc := loc + 1;
    }
  }

  lemma QuotWhole(x: nat, n: nat)
    ensures x < Pow2(n) ==> Quot(x, n) == 0 && Rest(x, n) == x
    ensures Quot(x, 0) == x && Rest(x, 0) == 0
  {
    hide Pow2, Mul;
    PowNext(0);
    MulTwice(x, Pow2(n));
    MulTwice(0, Pow2(n));
    if x < Pow2(n) { QuotUnique(x, n, 0, x); }
    QuotUnique(x, 0, x, 0);
  }

  lemma PackingStart(n: nat)
    ensures Packing(Zeros(n), 0, 0)
  {
    hide Pow2, Mul, Value;
    PadValue(2048, n, []);
    assert Zeros(n) + [] == Zeros(n);
    ValueStep(2048, [], 0);
    MulTwice(0, Pow2(11 * n));
    if n > 0 { RestZero(11); }
  }

  /** Words with all their bits set are the words of the number. */
  lemma PackingEnd(ws: seq<nat>, p: nat)
    requires Packing(ws, 11 * |ws|, p)
    ensures ws == Fixed(11, |ws|, p) && InBase(2048, ws)
  {
    hide *;
    PackingIs(ws, 11 * |ws|, p);
    PowNext(0);
    MulTwice(p, 1);
    SmallPowers();
    ValueFixed(11, ws);
  }

  lemma BytesNext(entropy: seq<Byte>, j: nat)
    requires j < |entropy|
    ensures Value(256, entropy[..j + 1]) == Mul(Value(256, entropy[..j]), Pow2(8)) + entropy[j]
  {
    hide Pow2, Mul, Value;
    SmallPowers();
    assert entropy[..j + 1] == entropy[..j] + [entropy[j]];
    ValueMul(8, entropy[..j], entropy[j]);
  }

  /** from_entropy */
  method FromEntropy<W(==)>(list: seq<W>, hash: seq<Byte> -> Byte, entropy: seq<Byte>) returns (r: Outcome<W, seq<W>>)
    requires |list| == 2048
    ensures r == Phrase(list, hash, entropy)
  {
    hide *;
    var length := |entropy|;
    LengthsAre(length);
    if !(length == 16 || length == 20 || length == 24 || length == 28 || length == 32) {
      PhraseBad(list, hash, entropy);
      return Bad(InvalidLength(length));
    }
    var checksumBits := length / 4;
    NumberIs(hash, entropy, checksumBits);
    PhraseIs(list, hash, entropy, checksumBits);
    var checksum := Rest(Quot(hash(entropy), 8 - checksumBits), checksumBits);
    MaskedChecksum(hash, entropy, checksumBits);
    var nwords := (length * 8 + checksumBits) / 11;
    var indexes := Zeros(nwords);
    var loc := 0;
    PackingStart(nwords);
    ValueMul(8, [], 0);
    SmallPowers();
    assert entropy[..0] == [] && entropy[..length] == entropy;
    for j := 0 to length
      invariant |indexes| == nwords && loc == 8 * j && Packing(indexes, loc, Value(256, entropy[..j]))
    {
      BytesNext(entropy, j);
      indexes, loc := PushBits(indexes, loc, entropy[j], 8, Value(256, entropy[..j]));
    }
    indexes, loc := PushBits(indexes, loc, checksum, checksumBits, Value(256, entropy));
    PackingEnd(indexes, Number(hash, entropy));
    r := Good(WordsAt(list, indexes));
  }

  lemma LengthsAre(n: nat)
    ensures EntropyLength(n) <==> n == 16 || n == 20 || n == 24 || n == 28 || n == 32
    ensures PhraseLength(n) <==> n == 12 || n == 15 || n == 18 || n == 21 || n == 24
  {}

  lemma PhraseBad<W>(list: seq<W>, hash: seq<Byte> -> Byte, entropy: seq<Byte>)
    requires |list| == 2048 && !EntropyLength(|entropy|)
    ensures Phrase(list, hash, entropy) == Bad(InvalidLength(|entropy|))
  {}

  /** The mask takes nothing away. */
  lemma MaskedChecksum(hash: seq<Byte> -> Byte, entropy: seq<Byte>, bits: nat)
    requires bits <= 8
    ensures Rest(Quot(hash(entropy), 8 - bits), bits) == Checksum(hash, entropy, bits) < Pow2(bits)
  {
    hide Pow2, Rest;
    ChecksumSmall(hash, entropy, bits);
    QuotWhole(Checksum(hash, entropy, bits), bits);
  }

  /** The last loc bits of the bytes hold the number x, the rest are zero. */
  ghost predicate Laying(bs: seq<nat>, loc: nat, x: nat)
  {
    && loc <= 8 * |bs| && InBase(256, bs) && Value(256, bs) == x
    && (loc < 8 * |bs| ==> bs[|bs| - 1 - loc / 8] < Pow2(loc % 8))
    && (forall i :: 0 <= i < |bs| - 1 - loc / 8 ==> bs[i] == 0)
  }

  lemma LayingIs(bs: seq<nat>, loc: nat, x: nat)
    ensures Laying(bs, loc, x) <==>
              && loc <= 8 * |bs| && InBase(256, bs) && Value(256, bs) == x
              && (loc < 8 * |bs| ==> bs[|bs| - 1 - loc / 8] < Pow2(loc % 8))
              && (forall i :: 0 <= i < |bs| - 1 - loc / 8 ==> bs[i] == 0)
  {
    hide Value, Pow2, InBase;
  }

  lemma HighBit(x: nat, k: nat)
    requires k < 8 && x < Pow2(k)
    ensures BitOr(x, Pow2(k)) == x + Pow2(k) < Pow2(k + 1) <= 256
  {
    hide Pow2, BitOr;
    OrAbove(x, k);
    PowNext(k);
    SmallPowers();
  }

  lemma LayStep(bs: seq<nat>, loc: nat, x: nat, bit: bool)
    requires Laying(bs, loc, x) && loc < 8 * |bs|
    ensures var b := |bs| - 1 - loc / 8;
            && 0 <= b < |bs|
            && Laying(bs[b := BitOr(bs[b], if bit then Pow2(loc % 8) else 0)], loc + 1, x + if bit then Pow2(loc) else 0)
  {
    hide *;
    LayingIs(bs, loc, x);
    var b, k := |bs| - 1 - loc / 8, loc % 8;
    HighBit(bs[b], k);
    BitOrZero(bs[b]);
    PowNext(k);
    var y := BitOr(bs[b], if bit then Pow2(k) else 0);
    var bs' := bs[b := y];
    InBaseUpdate(256, bs, b, y);
    SmallPowers();
    AddAt(8, bs, b, k);
    MulIs(|bs| - 1 - b, 8);
    assert 8 * (loc / 8) + k == loc;
    if !bit { assert bs' == bs; }
    if k == 7 {
      assert (loc + 1) / 8 == loc / 8 + 1 && (loc + 1) % 8 == 0;
    } else {
      assert (loc + 1) / 8 == loc / 8 && (loc + 1) % 8 == k + 1;
    }
    LayingIs(bs', loc + 1, x + if bit then Pow2(loc) else 0);
  }

  /** The 11 bits of a word, the least first, go to the next free places from the right. */
  method LayBits(bytes: seq<nat>, start: nat, index: nat, ghost x: nat) returns (r: seq<nat>, loc: nat)
    requires Laying(bytes, start, x) && start + 11 <= 8 * |bytes| && index < 2048
    ensures Laying(r, loc, x + Mul(index, Pow2(start))) && loc == start + 11 && |r| == |bytes|
  {
    hide *;
    r, loc := bytes, start;
    ghost var y: nat := x;
    SmallPowers();
    QuotWhole(index, 11);
    MulTwice(0, Pow2(start));
    for i := 0 to 11
      invariant loc == start + i && |r| == |bytes|
      invariant Laying(r, loc, y) && y == x + Mul(Rest(index, i), Pow2(start))
    {
      var bit := TestBit(index, i);
      LayStep(r, loc, y, bit);
      BottomBit(index, i);
      PowAdd(i, start);
      MulSplit(Rest(index, i), Pow2(i), Pow2(start));
      y := y + if bit then Pow2(loc) else 0;
      var place := |r| - 1 - loc / 8;
      r := r[place := BitOr(r[place], if bit then Pow2(loc % 8) else 0)];
      loc := loc + 1;
    }
  }

  /** The value of digits from the front. */
  lemma {:induction false} ValueFront(xs: seq<nat>, j: nat)
    requires j < |xs|
    ensures Value(Pow2(11), xs[j..]) == Mul(xs[j], Pow2(Mul(|xs| - 1 - j, 11))) + Value(Pow2(11), xs[j + 1..])
    decreases |xs|
  {
    hide *;
    var n := |xs| - 1;
    var rest, d := xs[..n], xs[n];
    PowNext(0);
    ValueMul(11, [], d);
    assert [] + [d] == [d];
    MulTwice(xs[j], 1);
    MulTwice(0, Pow2(11));
    MulStep(if j == n then 0 else n - 1 - j, 11);
    if j == n {
      assert xs[j..] == [d] && xs[j + 1..] == [];
    } else {
      ValueFront(rest, j);
      assert xs[j..] == rest[j..] + [d] && xs[j + 1..] == rest[j + 1..] + [d];
      ValueMul(11, rest[j..], d);
      ValueMul(11, rest[j + 1..], d);
      var p := Mul(n - 1 - j, 11);
      PowAdd(p, 11);
      MulSplit(Mul(xs[j], Pow2(p)), Value(Pow2(11), rest[j + 1..]), Pow2(11));
      MulGroup(xs[j], Pow2(p), Pow2(11));
    }
  }

  lemma KnownIs<W>(list: seq<W>, words: seq<W>, n: nat)
    requires n <= |words| && (forall i :: 0 <= i < n ==> words[i] in list) && (n < |words| ==> words[n] !in list)
    ensures Known(list, words) == n
  {}

  lemma IndexesAre<W>(list: seq<W>, words: seq<W>, xs: seq<nat>)
    requires |xs| == |words| && forall i :: 0 <= i < |xs| ==> Search(list, words[i]) == Some(xs[i])
    ensures Known(list, words) == |words| && Indexes(list, words) == xs
    ensures forall i :: 0 <= i < |xs| ==> xs[i] < |list|
  {
    hide Search;
    forall i | 0 <= i < |words| ensures words[i] in list { assert list[xs[i]] == words[i]; }
    KnownIs(list, words, |words|);
  }

  lemma EntropyBad<W>(list: seq<W>, hash: seq<Byte> -> Byte, words: seq<W>)
    requires |list| == 2048
    ensures !PhraseLength(|words|) ==> Entropy(list, hash, words) == Bad(InvalidLength(|words|))
    ensures PhraseLength(|words|) && Known(list, words) < |words| ==>
              Entropy(list, hash, words) == Bad(BadWord(words[Known(list, words)]))
  {
    hide Fixed, Pow2, Value, Indexes, Known, Checksum, Quot, Rest, PhraseLength;
  }

  /** The two parts of the last word. */
  lemma LastWord(last: nat, bits: nat)
    requires last < 2048 && 4 <= bits <= 8
    ensures Rest(Rest(last, 8), bits) == Rest(last, bits)
    ensures Rest(Quot(last, bits), 8) == Quot(last, bits) < Pow2(11 - bits) <= 128
    ensures Mul(Quot(last, bits), Pow2(bits)) + Rest(last, bits) == last
  {
    hide *;
    SmallPowers();
    QuotRest(last, bits);
    PowAdd(11 - bits, bits);
    QuotBelow(last, bits, Pow2(11 - bits));
    QuotWhole(Quot(last, bits), 8);
    LowBits(last, bits);
  }

  lemma LowBits(last: nat, bits: nat)
    requires bits <= 8
    ensures Rest(Rest(last, 8), bits) == Rest(last, bits)
  {
    hide *;
    var high, low := Quot(last, 8), Rest(last, 8);
    QuotRest(last, 8);
    QuotRest(low, bits);
    PowAdd(8 - bits, bits);
    MulGroup(high, Pow2(8 - bits), Pow2(bits));
    MulSplit(Mul(high, Pow2(8 - bits)), Quot(low, bits), Pow2(bits));
    QuotUnique(last, bits, Mul(high, Pow2(8 - bits)) + Quot(low, bits), Rest(low, bits));
  }

  lemma LayingStart(n: nat, last: nat, bits: nat)
    requires 4 <= bits <= 8 && last < Pow2(11 - bits) <= 128
    ensures Laying(Zeros(n) + [last], 11 - bits, last)
  {
    hide Value, Pow2;
    PadValue(256, n, [last]);
    ValueStep(256, [], last);
    assert [] + [last] == [last];
  }

  lemma LayingEnd(bs: seq<nat>, x: nat)
    requires Laying(bs, 8 * |bs|, x)
    ensures bs == Fixed(8, |bs|, x) && InBase(256, bs)
  {
    hide *;
    LayingIs(bs, 8 * |bs|, x);
    SmallPowers();
    ValueFixed(8, bs);
  }

  /** One more word to the left. */
  lemma WordToTheLeft(xs: seq<nat>, j: nat, bits: nat, loc: nat, x: nat, checksum: nat)
    requires j < |xs| && loc + bits == 11 * (|xs| - 1 - j)
    requires Mul(x, Pow2(bits)) + checksum == Value(Pow2(11), xs[j + 1..])
    ensures Mul(x + Mul(xs[j], Pow2(loc)), Pow2(bits)) + checksum == Value(Pow2(11), xs[j..])
  {
    hide *;
    ValueFront(xs, j);
    MulIs(|xs| - 1 - j, 11);
    PowAdd(loc, bits);
    MulSplit(x, Mul(xs[j], Pow2(loc)), Pow2(bits));
    MulGroup(xs[j], Pow2(loc), Pow2(bits));
  }

  /** to_entropy */
  method ToEntropy(list: seq<string>, hash: seq<Byte> -> Byte, words: seq<string>) returns (r: Outcome<string, seq<Byte>>)
    requires |list| == 2048 && Alphabetical(list)
    ensures r == Entropy(list, hash, words)
  {
    hide *;
    var n := |words|;
    LengthsAre(n);
    EntropyBad(list, hash, words);
    if !(n == 12 || n == 15 || n == 18 || n == 21 || n == 24) {
      return Bad(InvalidLength(n));
    }
    var indexes: seq<nat> := [];
    for i := 0 to n
      invariant |indexes| == i && forall k :: 0 <= k < i ==> Search(list, words[k]) == Some(indexes[k])
    {
      var found := BinarySearch(list, words[i]);
      if found.None? {
        forall k | 0 <= k < i ensures words[k] in list { assert list[indexes[k]] == words[k]; }
        KnownIs(list, words, i);
        return Bad(BadWord(words[i]));
      }
      indexes := indexes + [found.value];
    }
    IndexesAre(list, words, indexes);
    var checksumBits := n / 3;
    EntropyIs(list, hash, words, checksumBits);
    var last := indexes[n - 1];
    LastWord(last, checksumBits);
    var checksum := Rest(Rest(last, 8), checksumBits);
    var datalen := (11 * n - checksumBits) / 8 - 1;
    var bytes := Zeros(datalen) + [Rest(Quot(last, checksumBits), 8)];
    var loc := 11 - checksumBits;
    ghost var x: nat := Quot(last, checksumBits);
    LayingStart(datalen, x, checksumBits);
    assert indexes[n - 1..] == [] + [last];
    ValueMul(11, [], last);
    MulTwice(0, Pow2(11));
    for j := n - 1 downto 0
      invariant |bytes| == datalen + 1 && loc + checksumBits == 11 * (n - j) && Laying(bytes, loc, x)
      invariant Mul(x, Pow2(checksumBits)) + checksum == Value(Pow2(11), indexes[j..])
    {
      WordToTheLeft(indexes, j, checksumBits, loc, x, checksum);
      ghost var y: nat := x + Mul(indexes[j], Pow2(loc));
      bytes, loc := LayBits(bytes, loc, indexes[j], x);
      x := y;
    }
    LayingEnd(bytes, x);
    SmallPowers();
    assert indexes[0..] == indexes;
    QuotRest(last, checksumBits);
    QuotUnique(Value(2048, indexes), checksumBits, x, checksum);
    AreBytes(bytes);
    var entropy: seq<Byte> := bytes;
    MaskedChecksum(hash, entropy, checksumBits);
    var actual := Rest(Quot(hash(entropy), 8 - checksumBits), checksumBits);
    if actual != checksum {
      return Bad(Error.BadChecksum(checksum, actual));
    }
    r := Good(entropy);
  }

  lemma AreBytes(bs: seq<nat>)
    requires InBase(256, bs)
    ensures forall i :: 0 <= i < |bs| ==> bs[i] < 256
  {}
}
