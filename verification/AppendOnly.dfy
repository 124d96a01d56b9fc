/**
  The append-only files of store/src/types.rs.

  A file is a string of bytes on disk, a buffer of bytes not yet written, and the
  element position at which the buffer starts.  Rewinding only moves that start;
  the old start is kept so that the rewind can be discarded.  The abstract value
  is a pair of element sequences: what is committed and what is current.
 */
module AppendOnly {
  import opened Arithmetic
  import opened Wrappers

  type Elmt = seq<Byte>

  /** The elements written one after the other. */
  function Flatten(es: seq<Elmt>): (b: seq<Byte>) {
    if es == [] then [] else Flatten(es[..|es| - 1]) + es[|es| - 1]
  }

  lemma FlattenSnoc(es: seq<Elmt>, e: Elmt)
    ensures Flatten(es + [e]) == Flatten(es) + e
  {
    assert (es + [e])[..|es|] == es;
  }

  lemma {:induction false} FlattenConcat(es: seq<Elmt>, fs: seq<Elmt>)
    ensures Flatten(es + fs) == Flatten(es) + Flatten(fs)
    decreases |fs|
  {
    hide Flatten;
    FlattenNone();
    if fs == [] {
      assert es + fs == es;
    } else {
      var front, last := fs[..|fs| - 1], fs[|fs| - 1];
      FlattenConcat(es, front);
      assert es + fs == (es + front) + [last] && fs == front + [last];
      FlattenSnoc(es + front, last);
      FlattenSnoc(front, last);
      assert Flatten(es) + Flatten(front) + last == Flatten(es) + (Flatten(front) + last);
    }
  }

  lemma FlattenNone()
    ensures Flatten([]) == []
  {}

  /** An element is found at the length of what comes before it. */
  lemma FlattenAt(es: seq<Elmt>, i: nat)
    requires i < |es|
    ensures |Flatten(es[..i])| + |es[i]| <= |Flatten(es)|
    ensures Flatten(es)[|Flatten(es[..i])|..|Flatten(es[..i])| + |es[i]|] == es[i]
    ensures |Flatten(es[..i + 1])| == |Flatten(es[..i])| + |es[i]|
  {
    hide Flatten;
    assert es == es[..i + 1] + es[i + 1..];
    FlattenConcat(es[..i + 1], es[i + 1..]);
    assert es[..i + 1] == es[..i] + [es[i]];
    FlattenSnoc(es[..i], es[i]);
  }

  lemma FlattenTake(es: seq<Elmt>, i: nat)
    requires i <= |es|
    ensures |Flatten(es[..i])| <= |Flatten(es)|
    ensures Flatten(es)[..|Flatten(es[..i])|] == Flatten(es[..i])
    ensures Flatten(es)[|Flatten(es[..i])|..] == Flatten(es[i..])
  {
    hide Flatten;
    assert es == es[..i] + es[i..];
    FlattenConcat(es[..i], es[i..]);
  }

  ghost predicate AllSize(es: seq<Elmt>, size: nat) {
    forall i :: 0 <= i < |es| ==> |es[i]| == size
  }

  lemma {:induction false} FlattenFixed(es: seq<Elmt>, size: nat)
    requires AllSize(es, size)
    ensures |Flatten(es)| == Mul(|es|, size)
  {
    hide Mul;
    MulStep(0, size);
    if es != [] {
      FlattenFixed(es[..|es| - 1], size);
      MulStep(|es| - 1, size);
    }
  }

  /** The elements whose index is not listed. */
  function Without<T>(es: seq<T>, drop: seq<nat>): (r: seq<T>) {
    if es == [] then []
    else
      var front := Without(es[..|es| - 1], drop);
      if |es| - 1 in drop then front else front + [es[|es| - 1]]
  }

  lemma WithoutSnoc<T>(es: seq<T>, e: T, drop: seq<nat>)
    ensures Without(es + [e], drop) == if |es| in drop then Without(es, drop) else Without(es, drop) + [e]
  {
    assert (es + [e])[..|es|] == es;
  }

  ghost predicate Ordered(xs: seq<nat>) {
    forall i, j :: 0 <= i < j < |xs| ==> xs[i] < xs[j]
  }

  /** A slice of a string, empty when the string is too short for it. */
  function Slice(b: seq<Byte>, offset: nat, length: nat): (r: seq<Byte>) {
    if |b| < offset + length then [] else b[offset..offset + length]
  }

  /** A file of elements that all have the same size. */
  class FixedFile {
    const elmtSize: nat
    var file: seq<Byte>
    var buffer: seq<Byte>
    var bufferStart: nat
    var bufferStartBak: nat
    ghost var committed: seq<Elmt>
    ghost var current: seq<Elmt>

    ghost predicate Valid()
      reads this
    {
      && elmtSize > 0
      && AllSize(committed, elmtSize) && AllSize(current, elmtSize)
      && file == Flatten(committed)
      && bufferStart <= |committed| && bufferStart <= |current|
      && current[..bufferStart] == committed[..bufferStart]
      && buffer == Flatten(current[bufferStart..])
      && (bufferStartBak == 0 ==> bufferStart == |committed|)
      && (bufferStartBak > 0 ==> bufferStartBak == |committed|)
    }

    /** Nothing is waiting to be written or undone. */
    ghost predicate Synced()
      reads this
    {
      buffer == [] && bufferStartBak == 0
    }

    constructor (size: nat)
      requires size > 0
      ensures Valid() && Synced() && committed == [] && current == [] && elmtSize == size
    {
      elmtSize := size;
      file, buffer, bufferStart, bufferStartBak := [], [], 0, 0;
      committed, current := [], [];
    }

    /** A synced file shows what is committed. */
    lemma SyncedIs()
      requires Valid() && Synced()
      ensures current == committed
    {
      assert current == current[..bufferStart] + current[bufferStart..];
    }

    /** Element counts can be read off the byte counts. */
    lemma Counts()
      requires Valid()
      ensures elmtSize > 0 && |file| / elmtSize == |committed|
      ensures bufferStart + |buffer| / elmtSize == |current|
      ensures |file| == Mul(|committed|, elmtSize)
    {
      hide Flatten, Mul;
      FlattenFixed(committed, elmtSize);
      FlattenFixed(current[bufferStart..], elmtSize);
      MulDiv(|committed|, elmtSize);
      MulDiv(|current| - bufferStart, elmtSize);
    }

    function SizeInElmts(): (n: nat)
      requires elmtSize > 0
      reads this
    {
      |file| / elmtSize
    }

    function SizeUnsyncInElmts(): (n: nat)
      requires elmtSize > 0
      reads this
    {
      bufferStart + |buffer| / elmtSize
    }

    method Append(bytes: Elmt)
      requires Valid() && |bytes| == elmtSize
      modifies this`buffer, this`current
      ensures Valid() && current == old(current) + [bytes]
    {
      hide Flatten;
      assert (current + [bytes])[bufferStart..] == current[bufferStart..] + [bytes];
      assert (current + [bytes])[..bufferStart] == current[..bufferStart];
      FlattenSnoc(current[bufferStart..], bytes);
      buffer := buffer + bytes;
      current := current + [bytes];
    }

    /** Moves the start of the buffer, so that what is in the buffer comes right after the first elements. */
    method Rewind(pos: nat)
      requires Valid() && pos <= |committed|
      modifies this`bufferStart, this`bufferStartBak, this`current
      ensures Valid() && |old(current)| >= old(bufferStart)
      ensures current == old(committed)[..pos] + old(current)[old(bufferStart)..]
      ensures buffer == [] ==> current == old(committed)[..pos]
      ensures bufferStart == pos && bufferStartBak == if old(bufferStartBak) == 0 then old(bufferStart) else old(bufferStartBak)
    {
      hide Flatten;
      ghost var added := current[bufferStart..];
      if bufferStartBak == 0 {
        bufferStartBak := bufferStart;
      }
      bufferStart := pos;
      current := committed[..pos] + added;
      assert current[pos..] == added && current[..pos] == committed[..pos];
      if buffer == [] { NothingFlat(added, elmtSize); }
    }

    method Flush()
      requires Valid()
      modifies this
      ensures Valid() && Synced() && committed == current == old(current)
    {
      hide Flatten, Mul;
      assert current == current[..bufferStart] + current[bufferStart..];
      FlattenConcat(current[..bufferStart], current[bufferStart..]);
      FlattenTake(committed, bufferStart);
      FlattenFixed(committed[..bufferStart], elmtSize);
      if bufferStartBak > 0 {
        // A rewound state is truncated before the buffer is written.
        if bufferStart == 0 {
          file := [];
        } else {
          var offset, size := Mul(bufferStart - 1, elmtSize), elmtSize;
          MulStep(bufferStart - 1, elmtSize);
          file := file[..offset + size];
        }
      } else {
        assert committed[..bufferStart] == committed;
      }
      FlattenEmpty();
      bufferStartBak := 0;
      file := file + buffer;
      buffer := [];
      committed := current;
      FlattenFixed(committed, elmtSize);
      MulDiv(|committed|, elmtSize);
      bufferStart := SizeInElmts();
      assert current[bufferStart..] == [];
    }

    method Discard()
      requires Valid()
      modifies this`bufferStart, this`bufferStartBak, this`buffer, this`current
      ensures Valid() && Synced() && current == committed
    {
      if bufferStartBak > 0 {
        bufferStart := bufferStartBak;
        bufferStartBak := 0;
      }
      buffer := [];
      current := committed;
      assert current[bufferStart..] == [];
    }

    /** Bytes of the element at a 0-based position, from the file or from the buffer. */
    method Read(pos: nat) returns (bytes: Elmt)
      requires Valid()
      ensures bytes == if pos < |current| then current[pos] else []
    {
      hide Flatten, Mul;
      Counts();
      if pos >= SizeUnsyncInElmts() { return []; }
      var offset := Mul(pos, elmtSize);
      if pos < bufferStart {
        FlattenAt(committed, pos);
        FlattenFixed(committed[..pos], elmtSize);
        assert committed[pos] == committed[..bufferStart][pos];
        bytes := Slice(file, offset, elmtSize);
      } else {
        var bufferOffset := Mul(bufferStart, elmtSize);
        var rest := current[bufferStart..];
        FlattenAt(rest, pos - bufferStart);
        FlattenFixed(rest[..pos - bufferStart], elmtSize);
        MulSplit(bufferStart, pos - bufferStart, elmtSize);
        bytes := Slice(buffer, offset - bufferOffset, elmtSize);
      }
    }

    /** Rewrites the file without the listed (0-based, ordered) elements. */
    method SavePrune(prunePos: seq<nat>)
      requires Valid() && Synced() && Ordered(prunePos)
      modifies this
      ensures Valid() && Synced() && committed == current == Without(old(committed), prunePos)
    {
      hide Flatten, Mul, Pruning, Without;
      SyncedIs();
      PruningStart(committed, prunePos);
      var kept: seq<Byte> := [];
      var position, left, at := 0, prunePos, 0;
      Counts();
      FixedAt(committed, elmtSize, 0);
      while at + elmtSize <= |file|
        invariant position <= |committed| && at == Mul(position, elmtSize)
        invariant Pruning(committed, prunePos, position, left, kept)
        decreases |committed| - position
        modifies {}
      {
        MulAtMost(position, |committed|, elmtSize);
        FixedAt(committed, elmtSize, position);
        PruningStep(committed, prunePos, position, left, kept);
        var elmt := file[at..at + elmtSize];
        if position in left {
          left := left[1..];
        } else {
          kept := kept + elmt;
        }
        position := position + 1;
        at := at + elmtSize;
      }
      MulAtMost(position, |committed|, elmtSize);
      PruningEnd(committed, prunePos, left, kept);
      WithoutFixed(committed, prunePos, elmtSize);
      Replace(kept, Without(committed, prunePos));
    }

    /** replace and init: another file takes the place of this one, and the buffer starts where it ends. */
    method Replace(bytes: seq<Byte>, ghost elmts: seq<Elmt>)
      requires elmtSize > 0 && AllSize(elmts, elmtSize) && bytes == Flatten(elmts)
      requires Synced()
      modifies this
      ensures Valid() && Synced() && committed == current == elmts
    {
      hide Flatten, Mul;
      file := bytes;
      committed, current := elmts, elmts;
      FlattenFixed(committed, elmtSize);
      MulDiv(|committed|, elmtSize);
      FlattenEmpty();
      bufferStart := SizeInElmts();
      assert current[bufferStart..] == [];
    }
  }

  lemma NothingFlat(es: seq<Elmt>, size: nat)
    requires Flatten(es) == [] && AllSize(es, size) && size > 0
    ensures es == []
  {}

  lemma FlattenEmpty()
    ensures Flatten([]) == []
  {}

  /** Elements of one size are found at multiples of that size. */
  lemma FixedAt(es: seq<Elmt>, size: nat, i: nat)
    requires AllSize(es, size) && i <= |es|
    ensures Mul(0, size) == 0
    ensures i < |es| ==> Mul(i, size) + size <= |Flatten(es)| && Flatten(es)[Mul(i, size)..Mul(i, size) + size] == es[i]
    ensures i < |es| ==> Mul(i + 1, size) == Mul(i, size) + size
  {
    hide Flatten, Mul;
    MulStep(i, size);
    FlattenFixed(es[..i], size);
    if i < |es| { FlattenAt(es, i); }
  }

  /** The pruning loop has passed the first elements and written those that are not listed. */
  ghost predicate Pruning(es: seq<Elmt>, prunePos: seq<nat>, position: nat, left: seq<nat>, kept: seq<Byte>)
  {
    && position <= |es| && |left| <= |prunePos|
    && var dropped := |prunePos| - |left|;
    && left == prunePos[dropped..]
    && (forall i :: 0 <= i < dropped ==> prunePos[i] < position)
    && (forall i :: dropped <= i < |prunePos| ==> prunePos[i] >= position)
    && kept == Flatten(Without(es[..position], prunePos))
  }

  lemma PruningStart(es: seq<Elmt>, prunePos: seq<nat>)
    ensures Pruning(es, prunePos, 0, prunePos, [])
  {}

  /** Dropping the head of the ordered list is right whenever the position is listed. */
  lemma PruningStep(es: seq<Elmt>, prunePos: seq<nat>, position: nat, left: seq<nat>, kept: seq<Byte>)
    requires Ordered(prunePos) && position < |es| && Pruning(es, prunePos, position, left, kept)
    ensures position in left ==> |left| > 0 && Pruning(es, prunePos, position + 1, left[1..], kept)
    ensures position !in left ==> Pruning(es, prunePos, position + 1, left, kept + es[position])
  {
    hide Flatten, Without;
    var dropped := |prunePos| - |left|;
    assert es[..position + 1] == es[..position] + [es[position]];
    WithoutSnoc(es[..position], es[position], prunePos);
    if position in left {
      HeadOf(prunePos, dropped, position);
      assert position in prunePos;
    } else {
      assert position !in prunePos;
      FlattenSnoc(Without(es[..position], prunePos), es[position]);
    }
  }

  lemma PruningEnd(es: seq<Elmt>, prunePos: seq<nat>, left: seq<nat>, kept: seq<Byte>)
    requires Pruning(es, prunePos, |es|, left, kept)
    ensures kept == Flatten(Without(es, prunePos))
  {
    assert es[..|es|] == es;
  }

  lemma WithoutFixed(es: seq<Elmt>, drop: seq<nat>, size: nat)
    requires AllSize(es, size)
    ensures AllSize(Without(es, drop), size)
  {
    hide Without;
    WithoutSubset(es, drop);
    forall i | 0 <= i < |Without(es, drop)| ensures |Without(es, drop)[i]| == size {
      var e := Without(es, drop)[i];
      assert e in es;
    }
  }

  lemma {:induction false} WithoutSubset<T>(es: seq<T>, drop: seq<nat>)
    ensures forall e :: e in Without(es, drop) ==> e in es
  {
    if es != [] { WithoutSubset(es[..|es| - 1], drop); }
  }

  /** A listed position that is not behind the rest of an ordered list is its head. */
  lemma HeadOf(xs: seq<nat>, d: nat, x: nat)
    requires Ordered(xs) && d <= |xs| && x in xs[d..]
    requires forall i :: d <= i < |xs| ==> xs[i] >= x
    ensures d < |xs| && xs[d] == x
    ensures forall i :: d + 1 <= i < |xs| ==> xs[i] >= x + 1
  {
    var j :| 0 <= j < |xs[d..]| && xs[d..][j] == x;
  }

  // ----- elements of different sizes -----

  /** The k low bytes of a number, most significant first. */
  function BigEndian(n: nat, k: nat): (b: seq<Byte>)
    ensures |b| == k
  {
    if k == 0 then [] else BigEndian(n / 256, k - 1) + [n % 256]
  }

  function FromBigEndian(b: seq<Byte>): (n: nat) {
    if b == [] then 0 else 256 * FromBigEndian(b[..|b| - 1]) + b[|b| - 1]
  }

  lemma {:induction false} BigEndianRoundTrip(n: nat, k: nat)
    requires n < Pow256(k)
    ensures FromBigEndian(BigEndian(n, k)) == n
  {
    if k > 0 {
      BigEndianRoundTrip(n / 256, k - 1);
      assert BigEndian(n, k)[..k - 1] == BigEndian(n / 256, k - 1);
    }
  }

  const ENTRY_SIZE: nat := 10

  /** A size entry: the offset in eight bytes and the size in two, both cut to that width. */
  function EncodeEntry(offset: nat, size: nat): (b: Elmt)
    ensures |b| == ENTRY_SIZE
  {
    BigEndian(offset, 8) + BigEndian(size, 2)
  }

  function DecodeEntry(b: Elmt): (r: (nat, nat))
    requires |b| == ENTRY_SIZE
  {
    (FromBigEndian(b[..8]), FromBigEndian(b[8..]))
  }

  lemma {:induction false} FromBigEndianBound(b: seq<Byte>)
    ensures FromBigEndian(b) < Pow256(|b|)
  {
    if b != [] { FromBigEndianBound(b[..|b| - 1]); }
  }

  /** An entry decodes to what was encoded exactly when offset and size fit their widths. */
  lemma EntryRoundTrip(offset: nat, size: nat)
    ensures DecodeEntry(EncodeEntry(offset, size)) == (offset, size) <==> offset < Pow256(8) && size < Pow256(2)
  {
    hide BigEndian, FromBigEndian, Pow256;
    FromBigEndianBound(BigEndian(offset, 8));
    FromBigEndianBound(BigEndian(size, 2));
    if offset < Pow256(8) { BigEndianRoundTrip(offset, 8); }
    if size < Pow256(2) { BigEndianRoundTrip(size, 2); }
    assert EncodeEntry(offset, size)[..8] == BigEndian(offset, 8);
    assert EncodeEntry(offset, size)[8..] == BigEndian(size, 2);
  }

  /** One entry per element; each starts where the one before it ends. */
  ghost function EntriesOf(es: seq<Elmt>): (r: seq<Elmt>)
    ensures |r| == |es| && AllSize(r, ENTRY_SIZE)
  {
    if es == [] then []
    else
      var front := es[..|es| - 1];
      EntriesOf(front) + [EncodeEntry(|Flatten(front)|, |es[|es| - 1]|)]
  }

  lemma EntriesSnoc(es: seq<Elmt>, e: Elmt)
    ensures EntriesOf(es + [e]) == EntriesOf(es) + [EncodeEntry(|Flatten(es)|, |e|)]
  {
    assert (es + [e])[..|es|] == es;
  }

  lemma {:induction false} EntriesTake(es: seq<Elmt>, i: nat)
    requires i <= |es|
    ensures EntriesOf(es)[..i] == EntriesOf(es[..i])
  {
    if i == |es| {
      assert es[..i] == es;
    } else {
      EntriesTake(es[..|es| - 1], i);
      assert es[..|es| - 1][..i] == es[..i];
    }
  }

  /** Sizes fit in two bytes and offsets in eight. */
  ghost predicate Bounded(es: seq<Elmt>) {
    && |Flatten(es)| < Pow256(8)
    && forall i :: 0 <= i < |es| ==> |es[i]| < Pow256(2)
  }

  /** Reading an entry gives the place of its element. */
  lemma EntryAt(es: seq<Elmt>, i: nat)
    requires i < |es| && Bounded(es)
    ensures |EntriesOf(es)[i]| == ENTRY_SIZE
    ensures DecodeEntry(EntriesOf(es)[i]) == (|Flatten(es[..i])|, |es[i]|)
  {
    hide Flatten, EntriesOf, EncodeEntry, DecodeEntry, Pow256;
    EntriesTake(es, i + 1);
    assert es[..i + 1] == es[..i] + [es[i]];
    EntriesSnoc(es[..i], es[i]);
    assert EntriesOf(es)[i] == EntriesOf(es)[..i + 1][i];
    FlattenAt(es, i);
    EntryRoundTrip(|Flatten(es[..i])|, |es[i]|);
  }

  /** A file of elements of different sizes, with a size file that says where each one is. */
  class VariableFile {
    const sizeFile: FixedFile
    var file: seq<Byte>
    var buffer: seq<Byte>
    var bufferStart: nat
    var bufferStartBak: nat
    ghost var committed: seq<Elmt>
    ghost var current: seq<Elmt>

    ghost predicate Valid()
      reads this, sizeFile
    {
      && sizeFile.Valid() && sizeFile.elmtSize == ENTRY_SIZE
      && sizeFile.committed == EntriesOf(committed) && sizeFile.current == EntriesOf(current)
      && sizeFile.bufferStart == bufferStart && sizeFile.bufferStartBak == bufferStartBak
      && Bounded(committed) && Bounded(current)
      && file == Flatten(committed)
      && bufferStart <= |committed| && bufferStart <= |current|
      && current[..bufferStart] == committed[..bufferStart]
      && buffer == Flatten(current[bufferStart..])
    }

    ghost predicate Synced()
      reads this, sizeFile
    {
      buffer == [] && bufferStartBak == 0 && sizeFile.Synced()
    }

    constructor ()
      ensures Valid() && Synced() && fresh(sizeFile) && committed == [] && current == []
    {
      sizeFile := new FixedFile(ENTRY_SIZE);
      file, buffer, bufferStart, bufferStartBak := [], [], 0, 0;
      committed, current := [], [];
    }

    method EntryOf(pos: nat) returns (offset: nat, size: nat)
      requires Valid() && pos < |current|
      ensures offset == |Flatten(current[..pos])| && size == |current[pos]|
    {
      hide Flatten, Pow256, EntriesOf, DecodeEntry;
      EntryAt(current, pos);
      var bytes := sizeFile.Read(pos);
      var entry := DecodeEntry(bytes);
      offset, size := entry.0, entry.1;
    }

    /** The next entry starts where the last one ends. */
    method Append(bytes: Elmt)
      requires Valid() && |bytes| < Pow256(2) && |Flatten(current)| + |bytes| < Pow256(8)
      modifies this`buffer, this`current, sizeFile`buffer, sizeFile`current
      ensures Valid() && current == old(current) + [bytes]
    {
      hide Flatten, Pow256, EntriesOf, DecodeEntry, EncodeEntry;
      sizeFile.Counts();
      var next := sizeFile.SizeUnsyncInElmts();
      var offset := 0;
      assert current[..|current|] == current;
      FlattenEmpty();
      if next != 0 {
        var prevOffset, prevSize := EntryOf(next - 1);
        FlattenAt(current, next - 1);
        offset := prevOffset + prevSize;
      }
      EntriesSnoc(current, bytes);
      FlattenSnoc(current, bytes);
      sizeFile.Append(EncodeEntry(offset, |bytes|));
      assert (current + [bytes])[bufferStart..] == current[bufferStart..] + [bytes];
      assert (current + [bytes])[..bufferStart] == current[..bufferStart];
      FlattenSnoc(current[bufferStart..], bytes);
      buffer := buffer + bytes;
      current := current + [bytes];
    }

    /** Data and size file go back together; the size file knows no elements that are only in the buffer. */
    method Rewind(pos: nat)
      requires Valid() && buffer == [] && sizeFile.buffer == [] && pos <= |committed|
      modifies this`bufferStart, this`bufferStartBak, this`current
      modifies sizeFile`bufferStart, sizeFile`bufferStartBak, sizeFile`current
      ensures Valid() && buffer == [] && sizeFile.buffer == [] && current == old(committed)[..pos]
    {
      hide Flatten, Pow256, EntriesOf;
      EntriesTake(committed, pos);
      FlattenTake(committed, pos);
      sizeFile.Rewind(pos);
      if bufferStartBak == 0 {
        bufferStartBak := bufferStart;
      }
      bufferStart := pos;
      current := committed[..pos];
      assert current[pos..] == [];
      FlattenEmpty();
    }

    method Flush()
      requires Valid()
      modifies this, sizeFile
      ensures Valid() && Synced() && committed == current == old(current)
    {
      hide Flatten, Pow256, EntriesOf, Bounded;
      assert current == current[..bufferStart] + current[bufferStart..];
      FlattenConcat(current[..bufferStart], current[bufferStart..]);
      FlattenTake(committed, bufferStart);
      FlattenEmpty();
      sizeFile.Flush();
      if bufferStartBak > 0 {
        if bufferStart == 0 {
          file := [];
        } else {
          EntryAt(current, bufferStart - 1);
          FlattenAt(current, bufferStart - 1);
          var bytes := sizeFile.Read(bufferStart - 1);
          var entry := DecodeEntry(bytes);
          file := file[..entry.0 + entry.1];
        }
      } else {
        assert committed[..bufferStart] == committed;
      }
      bufferStartBak := 0;
      file := file + buffer;
      buffer := [];
      committed := current;
      sizeFile.Counts();
      bufferStart := sizeFile.SizeInElmts();
      assert current[bufferStart..] == [];
    }

    method Discard()
      requires Valid()
      modifies this`bufferStart, this`bufferStartBak, this`buffer, this`current
      modifies sizeFile`bufferStart, sizeFile`bufferStartBak, sizeFile`buffer, sizeFile`current
      ensures Valid() && Synced() && current == committed
    {
      hide Flatten, Pow256, EntriesOf, Bounded;
      if bufferStartBak > 0 {
        bufferStart := bufferStartBak;
        bufferStartBak := 0;
      }
      sizeFile.Discard();
      buffer := [];
      current := committed;
      assert current[bufferStart..] == [];
      FlattenEmpty();
    }

    method Read(pos: nat) returns (bytes: Elmt)
      requires Valid()
      ensures bytes == if pos < |current| then current[pos] else []
    {
      hide Flatten, Pow256, EntriesOf, Bounded;
      sizeFile.Counts();
      if pos >= sizeFile.SizeUnsyncInElmts() { return []; }
      var offset, length := EntryOf(pos);
      if pos < bufferStart {
        FlattenAt(committed, pos);
        assert committed[pos] == committed[..bufferStart][pos] == current[..bufferStart][pos];
        assert committed[..pos] == committed[..bufferStart][..pos] == current[..bufferStart][..pos] == current[..pos];
        bytes := Slice(file, offset, length);
      } else {
        var bufferOffset, _ := EntryOf(bufferStart);
        var rest := current[bufferStart..];
        FlattenAt(rest, pos - bufferStart);
        assert current[..pos] == current[..bufferStart] + rest[..pos - bufferStart];
        FlattenConcat(current[..bufferStart], rest[..pos - bufferStart]);
        bytes := Slice(buffer, if offset < bufferOffset then 0 else offset - bufferOffset, length);
      }
    }

    /** rebuild_size_file: the entries are computed again by reading the data file from the start. */
    method RebuildSizeFile(reader: seq<Byte> -> nat)
      requires file == Flatten(committed) && Bounded(committed) && Readable(reader, committed)
      requires sizeFile.Synced() && sizeFile.elmtSize == ENTRY_SIZE
      modifies sizeFile
      ensures sizeFile.Valid() && sizeFile.Synced()
      ensures sizeFile.committed == sizeFile.current == EntriesOf(committed)
    {
      hide Flatten, Pow256, EntriesOf, Bounded, EncodeEntry;
      var entries: seq<Byte> := [];
      var at := 0;
      ghost var i := 0;
      FlattenStart(committed);
      while reader(file[at..]) > 0
        invariant i <= |committed| && at == |Flatten(committed[..i])| <= |file|
        invariant entries == Flatten(EntriesOf(committed[..i]))
        decreases |committed| - i
        modifies {}
      {
        ReadNext(reader, committed, i);
        var size := reader(file[at..]);
        assert committed[..i + 1] == committed[..i] + [committed[i]];
        EntriesSnoc(committed[..i], committed[i]);
        FlattenSnoc(EntriesOf(committed[..i]), EncodeEntry(at, size));
        entries := entries + EncodeEntry(at, size);
        at := at + size;
        i := i + 1;
      }
      ReadNext(reader, committed, i);
      assert committed[..|committed|] == committed;
      sizeFile.Replace(entries, EntriesOf(committed));
    }

    method SavePrune(prunePos: seq<nat>, reader: seq<Byte> -> nat)
      requires Valid() && Synced() && Ordered(prunePos)
      requires Readable(reader, committed) && Readable(reader, Without(committed, prunePos))
      modifies this, sizeFile
      ensures Valid() && Synced() && committed == current == Without(old(committed), prunePos)
    {
      hide Flatten, Pow256, EntriesOf, Bounded, Without, Pruning;
      PruningStart(committed, prunePos);
      var kept: seq<Byte> := [];
      var position, left, at := 0, prunePos, 0;
      FlattenStart(committed);
      while reader(file[at..]) > 0
        invariant position <= |committed| && at == |Flatten(committed[..position])| <= |file|
        invariant Pruning(committed, prunePos, position, left, kept)
        decreases |committed| - position
        modifies {}
      {
        ReadNext(reader, committed, position);
        PruningStep(committed, prunePos, position, left, kept);
        var elmt := file[at..at + reader(file[at..])];
        if position in left {
          left := left[1..];
        } else {
          kept := kept + elmt;
        }
        position := position + 1;
        at := at + |elmt|;
      }
      ReadNext(reader, committed, position);
      PruningEnd(committed, prunePos, left, kept);
      WithoutBounded(committed, prunePos);
      file := kept;
      committed := Without(committed, prunePos);
      current := committed;
      RebuildSizeFile(reader);
      sizeFile.Counts();
      bufferStart := sizeFile.SizeInElmts();
      assert current[bufferStart..] == [];
    }
  }

  /** The elements can be read one by one: the reader gives the length of the first, 0 at the end. */
  ghost predicate Readable(reader: seq<Byte> -> nat, es: seq<Elmt>) {
    reader([]) == 0 && forall i :: 0 <= i < |es| ==> reader(Flatten(es[i..])) == |es[i]| > 0
  }

  lemma FlattenStart(es: seq<Elmt>)
    ensures Flatten(es[..0]) == [] && EntriesOf(es[..0]) == []
  {}

  /** Reading on after some elements gives the next one, or the end. */
  lemma ReadNext(reader: seq<Byte> -> nat, es: seq<Elmt>, i: nat)
    requires Readable(reader, es) && i <= |es|
    ensures |Flatten(es[..i])| <= |Flatten(es)|
    ensures reader(Flatten(es)[|Flatten(es[..i])|..]) > 0 <==> i < |es|
    ensures i < |es| ==>
              var at, n := |Flatten(es[..i])|, reader(Flatten(es)[|Flatten(es[..i])|..]);
              && at + n <= |Flatten(es)| && Flatten(es)[at..at + n] == es[i]
              && |Flatten(es[..i + 1])| == at + n
  {
    hide Flatten;
    FlattenTake(es, i);
    if i < |es| {
      FlattenAt(es, i);
    } else {
      assert es[i..] == [];
      FlattenEmpty();
    }
  }

  /** Dropping elements keeps sizes and offsets in range. */
  lemma WithoutBounded(es: seq<Elmt>, drop: seq<nat>)
    requires Bounded(es)
    ensures Bounded(Without(es, drop))
  {
    hide Pow256;
    WithoutShorter(es, drop);
  }

  lemma {:induction false} WithoutShorter(es: seq<Elmt>, drop: seq<nat>)
    ensures |Flatten(Without(es, drop))| <= |Flatten(es)|
    ensures forall e :: e in Without(es, drop) ==> e in es
  {
    if es != [] {
      var front, last := es[..|es| - 1], es[|es| - 1];
      WithoutShorter(front, drop);
      FlattenSnoc(Without(front, drop), last);
    }
  }
}
