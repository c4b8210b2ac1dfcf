/** The memory-only crash test: allocate buffers of growing sizes, fill
    each with its word indices, keep them all alive, and stop at the first
    allocation that fails or when free memory drops below twice the next
    size. */
module CrashTest {
  import opened Base

  /** The sizes tried, in KiB, in order. */
  const TestSizes: seq<nat> := [50, 100, 150, 180, 200, 250, 300, 350, 400, 450, 500, 600, 700, 800, 1000]

  /** `256 ** b` for a byte position of a 32-bit word. */
  function ByteWeight(b: nat): (p: nat)
    requires b < 4
    ensures p > 0
  {
    if b == 0 then 1 else if b == 1 then 0x100 else if b == 2 then 0x1_0000 else 0x100_0000
  }

  /** Byte `b` of `w.to_bytes(4, 'little')`: the low 32 bits of `w`. */
  function WordByte(w: nat, b: nat): byte
    requires b < 4
  {
    ((w / ByteWeight(b)) % 256) as byte
  }

  /** The contents of `create_memory_object(sizeKb)`: byte `i` is byte
      `i % 4` of the word index `i / 4`. */
  function WordFill(sizeKb: nat): (d: seq<byte>)
    ensures |d| == sizeKb * 1024
  {
    seq(sizeKb * 1024, i requires 0 <= i => WordByte(i / 4, i % 4))
  }

  /** The four bytes of a word read back little-endian. */
  function LittleEndian32Value(d: seq<byte>, o: nat): nat
    requires o + 4 <= |d|
  {
    d[o] as nat + 0x100 * d[o + 1] as nat + 0x1_0000 * d[o + 2] as nat + 0x100_0000 * d[o + 3] as nat
  }

  lemma WordBytesValue(w: nat)
    requires w < WordLimit
    ensures WordByte(w, 0) as nat + 0x100 * WordByte(w, 1) as nat
            + 0x1_0000 * WordByte(w, 2) as nat + 0x100_0000 * WordByte(w, 3) as nat == w
  {
    var a := w / 0x100;
    var b := a / 0x100;
    var c := b / 0x100;
    assert w == 0x100 * a + w % 0x100;
    assert a == 0x100 * b + a % 0x100;
    assert b == 0x100 * c + b % 0x100;
    assert c < 0x100;
    assert w / 0x1_0000 == b;
    assert w / 0x100_0000 == c;
  }

  /** The buffer holds `sizeKb * 1024` bytes, and bytes `4w .. 4w + 3` hold
      the word index `w` in little-endian order. */
  lemma FillHoldsWordIndices(sizeKb: nat, w: nat)
    requires w < sizeKb * 256 && w < WordLimit
    ensures 4 * w + 4 <= |WordFill(sizeKb)|
    ensures LittleEndian32Value(WordFill(sizeKb), 4 * w) == w
  {
    var d := WordFill(sizeKb);
    assert d[4 * w] == WordByte(w, 0);
    assert d[4 * w + 1] == WordByte(w, 1);
    assert d[4 * w + 2] == WordByte(w, 2);
    assert d[4 * w + 3] == WordByte(w, 3);
    WordBytesValue(w);
  }

  /** `create_memory_object(sizeKb)`: a zeroed buffer of `sizeKb` KiB, filled
      four bytes at a time. `allocFails` says that allocating it raises, and
      then the result is None. */
  method CreateMemoryObject(sizeKb: nat, allocFails: bool) returns (r: Option<array<byte>>)
    ensures r.None? <==> allocFails
    ensures r.Some? ==> fresh(r.value) && Filled(r.value, sizeKb)
  {
    if allocFails {
      return None;
    }
    var sizeBytes := sizeKb * 1024;
    var data := new byte[sizeBytes](_ => 0);
    var i := 0;
    ghost var k := 0;
    while i < sizeBytes
      invariant i == 4 * k && i <= sizeBytes
      invariant forall j :: 0 <= j < i ==> data[j] == WordByte(j / 4, j % 4)
    {
      var w := i / 4;
      assert w == k;
      data[i] := WordByte(w, 0);
      data[i + 1] := WordByte(w, 1);
      data[i + 2] := WordByte(w, 2);
      data[i + 3] := WordByte(w, 3);
      forall j | i <= j < i + 4
        ensures data[j] == WordByte(j / 4, j % 4)
      {
        WordSlot(k, j);
      }
      i := i + 4;
      k := k + 1;
    }
    r := Some(data);
  }

  /** Byte `j` of word number `k`. */
  lemma WordSlot(k: nat, j: nat)
    requires 4 * k <= j < 4 * k + 4
    ensures j / 4 == k && j % 4 == j - 4 * k
  {
  }

  /** Whether the run ends at test number `j`: its allocation fails, or
      afterwards free memory is below twice the next size in bytes. */
  predicate Halts(allocFails: nat -> bool, memFree: nat -> nat, j: nat) {
    allocFails(j) || (j + 1 < |TestSizes| && memFree(j) < TestSizes[j + 1] * 1024 * 2)
  }

  /** How many buffers the run keeps when it reaches test number `k`.
      `memFree(j)` is `gc.mem_free()` after test `j`. */
  function Kept(allocFails: nat -> bool, memFree: nat -> nat, k: nat): (r: nat)
    requires k <= |TestSizes|
    decreases |TestSizes| - k
    ensures k <= r <= |TestSizes|
  {
    if k == |TestSizes| then k
    else if allocFails(k) then k
    else if k + 1 < |TestSizes| && memFree(k) < TestSizes[k + 1] * 1024 * 2 then k + 1
    else Kept(allocFails, memFree, k + 1)
  }

  /** The run ends at the first test that halts it: a failed allocation
      keeps nothing for that test, a memory stop keeps its buffer; when no
      test halts it all fifteen buffers are kept. */
  lemma {:induction false} KeptAtFirstHalt(allocFails: nat -> bool, memFree: nat -> nat, k: nat)
    requires k <= |TestSizes|
    decreases |TestSizes| - k
    ensures (forall j :: k <= j < |TestSizes| ==> !Halts(allocFails, memFree, j))
            ==> Kept(allocFails, memFree, k) == |TestSizes|
    ensures forall j :: k <= j < |TestSizes| && Halts(allocFails, memFree, j)
                        && (forall i :: k <= i < j ==> !Halts(allocFails, memFree, i))
                        ==> Kept(allocFails, memFree, k) == if allocFails(j) then j else j + 1
  {
    if k < |TestSizes| {
      if Halts(allocFails, memFree, k) {
      } else {
        KeptAtFirstHalt(allocFails, memFree, k + 1);
      }
    }
  }

  /** Bytes held by the first `n` buffers. */
  function TotalBytes(n: nat): nat
    requires n <= |TestSizes|
  {
    if n == 0 then 0 else TotalBytes(n - 1) + TestSizes[n - 1] * 1024
  }

  /** The sizes are distinct (increasing), so `test_sizes.index(size)` is
      the loop position. */
  lemma SizesIncrease()
    ensures forall i, j :: 0 <= i < j < |TestSizes| ==> TestSizes[i] < TestSizes[j]
  {
  }

  /** A buffer holding its word indices. */
  predicate Filled(a: array<byte>, sizeKb: nat)
    reads a
  {
    a[..] == WordFill(sizeKb)
  }

  /** `memory_crash_test`: the buffers kept, in allocation order, each
      filled with its word indices, and the reported total. */
  method MemoryCrashTest(allocFails: nat -> bool, memFree: nat -> nat) returns (objects: seq<array<byte>>, total: nat)
    ensures |objects| == Kept(allocFails, memFree, 0)
    ensures forall i :: 0 <= i < |objects| ==> fresh(objects[i]) && Filled(objects[i], TestSizes[i])
    ensures total == TotalBytes(|objects|)
  {
    objects := [];
    var k := 0;
    while k < |TestSizes|
      invariant k <= |TestSizes| && |objects| == k
      invariant Kept(allocFails, memFree, 0) == Kept(allocFails, memFree, k)
      invariant forall i :: 0 <= i < k ==> fresh(objects[i])
      invariant forall i :: 0 <= i < k ==> Filled(objects[i], TestSizes[i])
    {
      KeptStep(allocFails, memFree, k);
      var size := TestSizes[k];
      var obj := CreateMemoryObject(size, allocFails(k));
      if obj.None? {
        break;
      }
      KeepFilled(objects, obj.value, k);
      objects := objects + [obj.value];
      if |TestSizes| > k + 1 {
        var nextSize := TestSizes[k + 1];
        if memFree(k) < nextSize * 1024 * 2 {
          break;
        }
      }
      k := k + 1;
    }
    total := SumLengths(objects);
  }

  /** One step of the run: test `k` halts it or hands over to test `k + 1`. */
  lemma KeptStep(allocFails: nat -> bool, memFree: nat -> nat, k: nat)
    requires k < |TestSizes|
    ensures allocFails(k) ==> Kept(allocFails, memFree, k) == k
    ensures !allocFails(k) && Halts(allocFails, memFree, k) ==> Kept(allocFails, memFree, k) == k + 1
    ensures !Halts(allocFails, memFree, k) ==> Kept(allocFails, memFree, k) == Kept(allocFails, memFree, k + 1)
  {
  }

  lemma KeepFilled(prev: seq<array<byte>>, a: array<byte>, k: nat)
    requires |prev| == k < |TestSizes|
    requires forall i :: 0 <= i < k ==> Filled(prev[i], TestSizes[i])
    requires Filled(a, TestSizes[k])
    ensures forall i :: 0 <= i < k + 1 ==> Filled((prev + [a])[i], TestSizes[i])
  {
    forall i | 0 <= i < k + 1
      ensures Filled((prev + [a])[i], TestSizes[i])
    {
      if i < k {
        assert (prev + [a])[i] == prev[i];
      }
    }
  }

  /** `sum(len(obj) for obj in objects)` over buffers of the test sizes. */
  method SumLengths(objects: seq<array<byte>>) returns (total: nat)
    requires |objects| <= |TestSizes|
    requires forall i :: 0 <= i < |objects| ==> Filled(objects[i], TestSizes[i])
    ensures total == TotalBytes(|objects|)
  {
    total := 0;
    var j := 0;
    while j < |objects|
      invariant j <= |objects| && total == TotalBytes(j)
    {
      assert |objects[j][..]| == TestSizes[j] * 1024;
      total := total + objects[j].Length;
      j := j + 1;
    }
  }
}
