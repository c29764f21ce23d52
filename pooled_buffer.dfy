/**
 * Pooled buffers. `ArrayPool` stands for the shared array pool: it hands out arrays at least
 * as long as asked for and takes them back for reuse. `PooledBufferOwner` rents one array,
 * exposes exactly the requested number of bytes of it, and returns it to the pool once.
 */
module Transport {
  import opened Bytes
  import opened Wrappers
  import opened Channel

  /** Adding an array not yet in a set makes it one larger; removing one in it, one smaller. */
  lemma CountChange(s: set<array<byte>>, a: array<byte>)
    ensures a !in s ==> |s + {a}| == |s| + 1
    ensures a in s ==> |s - {a}| == |s| - 1
  {
  }

  class ArrayPool {
    /** Arrays handed back and available for reuse. */
    var free: seq<array<byte>>
    /** Arrays currently rented out. */
    ghost var lent: set<array<byte>>
    /** How many arrays are rented out: the size of `lent`, kept as a number. */
    ghost var outstanding: nat
    /** Every array ever handed back, in order. */
    ghost var returned: seq<array<byte>>
    /** Every array the pool has allocated. */
    ghost var Repr: set<array<byte>>

    /** No array is both free and rented, none is free twice, and `outstanding` counts the rented ones. */
    ghost predicate Valid()
      reads this
    {
      && outstanding == |lent|
      && lent <= Repr
      && (forall i :: 0 <= i < |free| ==> free[i] in Repr && free[i] !in lent)
      && (forall i, j :: 0 <= i < j < |free| ==> free[i] != free[j])
    }

    constructor ()
      ensures Valid() && free == [] && lent == {} && outstanding == 0 && returned == [] && Repr == {}
    {
      free, lent, outstanding, returned, Repr := [], {}, 0, [], {};
    }

    /** `Rent(n)`: an array of at least `n` bytes that nobody else holds. */
    method Rent(n: nat) returns (a: array<byte>)
      requires Valid() && n <= MaxArrayLength
      modifies this
      ensures Valid()
      ensures a.Length >= n && a !in old(lent) && lent == old(lent) + {a}
      ensures outstanding == old(outstanding) + 1
      ensures Repr == old(Repr) + {a} && (fresh(a) || a in old(Repr))
      ensures returned == old(returned)
    {
      if |free| > 0 && free[|free| - 1].Length >= n {
        a := free[|free| - 1];
        free := free[..|free| - 1];
      } else {
        a := new byte[n];
        Repr := Repr + {a};
      }
      CountChange(lent, a);
      lent, outstanding := lent + {a}, outstanding + 1;
    }

    /** `Return(a)`: hands a rented array back; returning one twice would let two renters share it. */
    method Return(a: array<byte>)
      requires Valid() && a in lent
      modifies this
      ensures Valid()
      ensures lent == old(lent) - {a} && returned == old(returned) + [a] && Repr == old(Repr)
      ensures outstanding == old(outstanding) - 1 && free == old(free) + [a]
    {
      free := free + [a];
      CountChange(lent, a);
      lent, outstanding := lent - {a}, outstanding - 1;
      returned := returned + [a];
    }
  }

  /** The `Memory<byte>` a buffer owner exposes: the first `length` bytes of `data`. */
  datatype MemoryView = MemoryView(data: array<byte>, length: nat)

  datatype BufferError = ObjectDisposed

  class PooledBufferOwner {
    const pool: ArrayPool
    const length: nat
    var buffer: array?<byte>
    var disposed: bool

    /** Disposed exactly when the array has been given up; until then the array is rented to us. */
    ghost predicate Valid()
      reads this, pool
    {
      && (disposed <==> buffer == null)
      && (buffer != null ==> buffer.Length >= length && buffer in pool.lent)
    }

    constructor (pool: ArrayPool, length: nat)
      requires pool.Valid() && length <= MaxArrayLength
      modifies pool
      ensures Valid() && pool.Valid()
      ensures this.pool == pool && this.length == length && !disposed && buffer != null
      ensures buffer !in old(pool.lent) && pool.lent == old(pool.lent) + {buffer}
      ensures pool.outstanding == old(pool.outstanding) + 1
      ensures pool.Repr == old(pool.Repr) + {buffer} && (fresh(buffer) || buffer in old(pool.Repr))
      ensures pool.returned == old(pool.returned)
    {
      this.pool := pool;
      this.length := length;
      var a := pool.Rent(length);
      buffer := a;
      disposed := false;
    }

    /** The `Memory` getter: exactly `length` bytes from index 0 of the rented array, or ObjectDisposed. */
    method Memory() returns (r: Result<MemoryView, BufferError>)
      requires Valid()
      ensures r.Failure? <==> disposed
      ensures r.Failure? ==> r.error == ObjectDisposed
      ensures r.Success? ==> r.value.data == buffer && r.value.length == length
      ensures r.Success? ==> r.value.length <= r.value.data.Length
    {
      if disposed || buffer == null {
        return Failure(ObjectDisposed);
      }
      return Success(MemoryView(buffer, length));
    }

    /**
     * `Dispose`: the first call hands the array back to the pool and marks the owner disposed;
     * every later call changes nothing.
     */
    method Dispose()
      requires Valid() && pool.Valid()
      modifies this, pool
      ensures Valid() && pool.Valid() && disposed && buffer == null
      ensures old(disposed) ==> pool.lent == old(pool.lent) && pool.returned == old(pool.returned)
                                && pool.free == old(pool.free) && pool.outstanding == old(pool.outstanding)
      ensures !old(disposed) ==> pool.lent == old(pool.lent) - {old(buffer)}
                                 && pool.returned == old(pool.returned) + [old(buffer)]
                                 && pool.outstanding == old(pool.outstanding) - 1
      ensures pool.Repr == old(pool.Repr)
    {
      if !disposed && buffer != null {
        pool.Return(buffer);
        buffer := null;
        disposed := true;
      }
    }
  }

  /** How many times `a` occurs in `s`. */
  function Occurrences(s: seq<array<byte>>, a: array<byte>): nat
  {
    if s == [] then 0 else (if s[0] == a then 1 else 0) + Occurrences(s[1..], a)
  }

  lemma {:induction false} OccurrencesAppend(s: seq<array<byte>>, a: array<byte>, b: array<byte>)
    ensures Occurrences(s + [b], a) == Occurrences(s, a) + (if b == a then 1 else 0)
  {
    if s == [] {
      assert [b][1..] == [];
    } else {
      assert (s + [b])[1..] == s[1..] + [b];
      OccurrencesAppend(s[1..], a, b);
    }
  }

  /**
   * However many times an owner is disposed, its array goes back to the pool exactly once and
   * reading its memory afterwards fails.
   */
  method DisposeRepeatedly(owner: PooledBufferOwner, times: nat) returns (after: Result<MemoryView, BufferError>)
    requires owner.Valid() && owner.pool.Valid() && !owner.disposed && times >= 1
    modifies owner, owner.pool
    ensures owner.pool.Valid() && owner.Valid() && owner.disposed
    ensures Occurrences(owner.pool.returned, old(owner.buffer))
            == Occurrences(old(owner.pool.returned), old(owner.buffer)) + 1
    ensures after == Failure(ObjectDisposed)
  {
    ghost var a := owner.buffer;
    owner.Dispose();
    OccurrencesAppend(old(owner.pool.returned), a, a);
    var k := 1;
    while k < times
      invariant owner.Valid() && owner.pool.Valid() && owner.disposed
      invariant owner.pool.returned == old(owner.pool.returned) + [a]
    {
      owner.Dispose();
      k := k + 1;
    }
    after := owner.Memory();
  }

  /**
   * A buffer owner for `len` bytes and a read of exactly that many into its memory, as the
   * servers do for the header and for the body (`ReceiveAllAsync` / `ReadExactAsync`).
   */
  method RentAndRead(pool: ArrayPool, conn: Stream, len: nat) returns (owner: PooledBufferOwner, ok: bool)
    requires pool.Valid() && len <= MaxArrayLength
    modifies conn, pool, pool.Repr
    ensures fresh(owner) && owner.pool == pool && owner.Valid() && !owner.disposed && owner.length == len
    ensures owner.buffer !in old(pool.lent) && pool.lent == old(pool.lent) + {owner.buffer}
    ensures pool.outstanding == old(pool.outstanding) + 1
    ensures pool.Valid() && fresh(pool.Repr - old(pool.Repr)) && pool.returned == old(pool.returned)
    ensures ok <==> len <= |old(conn.Pending())|
    ensures ok ==> owner.buffer[..len] == old(conn.Pending())[..len]
                   && conn.Pending() == old(conn.Pending())[len..]
    ensures !ok ==> conn.Pending() == []
    ensures conn.sent == old(conn.sent) && conn.steps == old(conn.steps)
    ensures conn.flushedTo == old(conn.flushedTo) && conn.connected == (old(conn.connected) && ok)
  {
    owner := new PooledBufferOwner(pool, len);
    var memory := owner.Memory();
    var buffer := memory.value;
    ok := ReadExact(conn, buffer.data, buffer.length);
  }

  /** Releasing a header buffer and then a body buffer, as the pipe endpoints do at the end of a request. */
  method DisposeBoth(lenOwner: PooledBufferOwner, owner: PooledBufferOwner)
    requires lenOwner.pool == owner.pool && owner.pool.Valid()
    requires lenOwner.Valid() && owner.Valid() && !lenOwner.disposed && !owner.disposed
    requires lenOwner.buffer != owner.buffer
    modifies lenOwner, owner, owner.pool
    ensures owner.pool.Valid() && lenOwner.Valid() && owner.Valid()
    ensures lenOwner.disposed && owner.disposed
    ensures owner.pool.lent == old(owner.pool.lent) - {old(lenOwner.buffer), old(owner.buffer)}
    ensures owner.pool.outstanding == old(owner.pool.outstanding) - 2
    ensures owner.pool.returned == old(owner.pool.returned) + [old(lenOwner.buffer), old(owner.buffer)]
    ensures owner.pool.Repr == old(owner.pool.Repr)
  {
    lenOwner.Dispose();
    owner.Dispose();
  }
}
