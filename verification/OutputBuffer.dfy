/**
 Truncating output buffers. Characters collect in a fixed array that is flushed when it is full; only the first
 limit of them reach the output, but all are counted.
 */
module OutputBuffer {
  import opened Arithmetic

  const BUFFER_SIZE: nat := 256

  function Prefix<T>(s: seq<T>, n: nat): seq<T> {
    s[..Min(n, |s|)]
  }

  /** How much of size more elements still fits under a limit, count having gone before. */
  function Allowed(limit: nat, count: nat, size: nat): nat {
    Min(size, if limit > count then limit - count else 0)
  }

  lemma PrefixGrows<T>(s: seq<T>, t: seq<T>, limit: nat)
    ensures Allowed(limit, |s|, |t|) <= |t|
    ensures Prefix(s, limit) + t[..Allowed(limit, |s|, |t|)] == Prefix(s + t, limit)
  {
  }

  /** A buffer in front of an output iterator; out is what the iterator has received. */
  class IteratorBuffer<T(0)> {
    const data: array<T>
    const limit: nat
    var size: nat
    var flushed: nat
    var out: seq<T>
    ghost var pushed: seq<T>

    ghost predicate Valid()
      reads this, data
    {
      && data.Length == BUFFER_SIZE && size <= BUFFER_SIZE
      && |pushed| == flushed + size
      && pushed[flushed..] == data[..size]
      && out == Prefix(pushed[..flushed], limit)
    }

    constructor (limit: nat)
      ensures Valid() && fresh(data) && pushed == [] && this.limit == limit
    {
      data := new T[BUFFER_SIZE];
      this.limit, size, flushed, out, pushed := limit, 0, 0, [], [];
    }

    method Flush()
      requires Valid()
      modifies this
      ensures Valid() && pushed == old(pushed) && size == 0
    {
      var n := size;
      size := 0;
      ghost var before := pushed[..flushed];
      PrefixGrows(before, data[..n], limit);
      var allowed := Allowed(limit, flushed, n);
      flushed := flushed + n;
      out := out + data[..allowed];
      assert data[..n][..allowed] == data[..allowed];
      assert pushed == before + data[..n] && pushed[..flushed] == pushed;
    }

    /** Flushes a full buffer and does not grow any other. */
    method TryReserve(capacity: nat)
      requires Valid()
      modifies this
      ensures Valid() && pushed == old(pushed)
      ensures capacity > old(size) ==> size < BUFFER_SIZE
    {
      if capacity > BUFFER_SIZE {
        if size == BUFFER_SIZE {
          Flush();
        }
      }
    }

    method PushBack(value: T)
      requires Valid()
      modifies this, data
      ensures Valid() && pushed == old(pushed) + [value]
    {
      TryReserve(size + 1);
      data[size] := value;
      size := size + 1;
      pushed := pushed + [value];
    }

    /** Copies as much as fits, again and again. */
    method Append(text: seq<T>)
      requires Valid()
      modifies this, data
      ensures Valid() && pushed == old(pushed) + text
    {
      hide Prefix;
      var begin := 0;
      while begin != |text|
        invariant begin <= |text| && Valid()
        invariant pushed == old(pushed) + text[..begin]
        decreases |text| - begin
      {
        var count := |text| - begin;
        TryReserve(size + count);
        count := Min(count, BUFFER_SIZE - size);
        assert text[..begin] + text[begin..begin + count] == text[..begin + count];
        CopyIn(text[begin..begin + count]);
        begin := begin + count;
      }
      assert text[..|text|] == text;
    }

    method CopyIn(piece: seq<T>)
      requires Valid() && size + |piece| <= BUFFER_SIZE
      modifies this, data
      ensures Valid() && pushed == old(pushed) + piece
    {
      ghost var before := data[..size];
      forall i | 0 <= i < |piece| {
        data[size + i] := piece[i];
      }
      assert data[..size + |piece|] == before + piece;
      pushed := pushed + piece;
      size := size + |piece|;
    }

    /** Everything pushed so far, truncated or not. */
    method Count() returns (n: nat)
      requires Valid()
      ensures n == |pushed|
    {
      n := flushed + size;
    }

    /** Delivers what is left; the output has exactly the first limit elements. */
    method Out()
      requires Valid()
      modifies this
      ensures Valid() && pushed == old(pushed)
      ensures out == Prefix(pushed, limit)
    {
      Flush();
      assert pushed[..flushed] == pushed;
    }
  }

  /**
   The variant for a plain pointer: it writes straight into the caller's array of limit elements and changes over
   to its own scratch array, whose contents are dropped, when that is full.
   */
  class PointerBuffer<T(0)> {
    const dest: array<T>
    const scratch: array<T>
    const limit: nat
    var direct: bool
    var size: nat
    var flushed: nat
    ghost var pushed: seq<T>

    ghost predicate Valid()
      reads this, dest, scratch
    {
      && scratch.Length == BUFFER_SIZE && limit <= dest.Length && dest != scratch
      && |pushed| == flushed + size
      && (direct ==> flushed == 0 && size <= limit && dest[..size] == pushed)
      && (!direct ==> size <= BUFFER_SIZE && flushed >= limit && dest[..limit] == pushed[..limit])
    }

    constructor (dest: array<T>, limit: nat)
      requires limit <= dest.Length
      ensures Valid() && this.dest == dest && this.limit == limit && pushed == [] && fresh(scratch)
    {
      this.dest, this.limit, direct, size, flushed, pushed := dest, limit, true, 0, 0, [];
      scratch := new T[BUFFER_SIZE];
    }

    function Capacity(): nat
      reads this
    {
      if direct then limit else BUFFER_SIZE
    }

    method TryReserve(capacity: nat)
      requires Valid()
      modifies this
      ensures Valid() && pushed == old(pushed)
      ensures capacity > old(size) ==> size < Capacity()
    {
      if capacity > Capacity() {
        if size == Capacity() {
          flushed := flushed + size;
          direct := false;
          size := 0;
        }
      }
    }

    method Store(at: nat, value: T)
      requires Valid() && at < Capacity() && at >= size
      modifies dest, scratch
      ensures Valid() && (if direct then dest[at] else scratch[at]) == value
      ensures forall k :: 0 <= k < dest.Length && (!direct || k != at) ==> dest[k] == old(dest[k])
    {
      if direct {
        dest[at] := value;
      } else {
        scratch[at] := value;
      }
    }

    method PushBack(value: T)
      requires Valid()
      modifies this, dest, scratch
      ensures Valid() && pushed == old(pushed) + [value]
      ensures dest[limit..] == old(dest[limit..])
    {
      TryReserve(size + 1);
      Store(size, value);
      size := size + 1;
      pushed := pushed + [value];
    }

    method Append(text: seq<T>)
      requires Valid()
      modifies this, dest, scratch
      ensures Valid() && pushed == old(pushed) + text
      ensures dest[limit..] == old(dest[limit..])
    {
      hide Prefix;
      var begin := 0;
      while begin != |text|
        invariant begin <= |text| && Valid()
        invariant pushed == old(pushed) + text[..begin]
        invariant dest[limit..] == old(dest[limit..])
        decreases |text| - begin
      {
        var count := |text| - begin;
        TryReserve(size + count);
        count := Min(count, Capacity() - size);
        assert text[..begin] + text[begin..begin + count] == text[..begin + count];
        CopyIn(text[begin..begin + count]);
        begin := begin + count;
      }
      assert text[..|text|] == text;
    }

    method CopyIn(piece: seq<T>)
      requires Valid() && size + |piece| <= Capacity()
      modifies this, dest, scratch
      ensures Valid() && pushed == old(pushed) + piece
      ensures dest[limit..] == old(dest[limit..])
    {
      if direct {
        forall i | 0 <= i < |piece| {
          dest[size + i] := piece[i];
        }
        assert dest[..size + |piece|] == pushed + piece;
      } else {
        forall i | 0 <= i < |piece| {
          scratch[size + i] := piece[i];
        }
      }
      size := size + |piece|;
      pushed := pushed + piece;
    }

    method Count() returns (n: nat)
      requires Valid()
      ensures n == |pushed|
    {
      n := flushed + size;
    }

    /** Ends the writing; returns how many elements of the caller's array are filled. */
    method Out() returns (n: nat)
      requires Valid()
      modifies this
      ensures pushed == old(pushed)
      ensures n == Min(limit, |pushed|) && dest[..n] == Prefix(pushed, limit)
    {
      n := if direct then size else limit;
      assert dest[..n] == dest[..limit][..n];
      flushed := flushed + size;
      direct, size := false, 0;
    }
  }

  datatype Write<T> = One(value: T) | Many(text: seq<T>)

  /** Everything a sequence of writes wants to output. */
  function Written<T>(writes: seq<Write<T>>): seq<T> {
    if |writes| == 0 then []
    else Written(writes[..|writes| - 1]) + match writes[|writes| - 1] { case One(c) => [c] case Many(t) => t }
  }

  /** Every write adds exactly its element or its text. */
  lemma WrittenMore<T>(writes: seq<Write<T>>, c: T, text: seq<T>)
    ensures Written(writes + [One(c)]) == Written(writes) + [c]
    ensures Written(writes + [Many(text)]) == Written(writes) + text
  {
    assert (writes + [One(c)])[..|writes|] == writes && (writes + [Many(text)])[..|writes|] == writes;
  }

  /** Formatting with a size limit: whatever the writes are, the output is cut at n and the total is not. */
  method FormatToN<T(0)>(writes: seq<Write<T>>, n: nat) returns (out: seq<T>, total: nat)
    ensures out == Prefix(Written(writes), n) && total == |Written(writes)|
    ensures out == Written(writes)[..Min(n, |Written(writes)|)]
  {
    var buf := new IteratorBuffer<T>(n);
    var i := 0;
    while i < |writes|
      invariant i <= |writes| && buf.Valid() && buf.limit == n && fresh(buf) && fresh(buf.data)
      invariant buf.pushed == Written(writes[..i])
    {
      assert writes[..i + 1][..i] == writes[..i];
      match writes[i] {
        case One(c) => buf.PushBack(c);
        case Many(t) => buf.Append(t);
      }
      i := i + 1;
    }
    assert writes[..|writes|] == writes;
    buf.Out();
    out := buf.out;
    total := buf.Count();
  }
}
