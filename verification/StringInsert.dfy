// Inserting a range of characters into a string that keeps short contents in
// the string object itself. The last slot of that small buffer holds how many
// characters are still free, which is zero, like a terminator, when it is full.
module StringInsert {
  // Where the inserted characters are: outside the string, or a stretch of its own.
  datatype Source = Elsewhere(data: seq<int>) | Own(from: nat, to: nat)

  function Count(source: Source): int {
    if source.Own? then source.to - source.from else |source.data|
  }

  // r is s with count cells copied to dst as if through a temporary (memmove).
  ghost predicate Moved(s: seq<int>, r: seq<int>, src: nat, count: nat, dst: nat) {
    && |r| == |s| && src + count <= |s| && dst + count <= |s|
    && forall i {:trigger r[i]} :: 0 <= i < |s| ==> r[i] == if dst <= i < dst + count then s[src + (i - dst)] else s[i]
  }

  // r is s with data written at dst.
  ghost predicate Written(s: seq<int>, r: seq<int>, dst: nat, data: seq<int>) {
    && |r| == |s| && dst + |data| <= |s|
    && forall i {:trigger r[i]} :: 0 <= i < |s| ==> r[i] == if dst <= i < dst + |data| then data[i - dst] else s[i]
  }

  // r is s after the size has been set: the last cell of the small buffer says
  // how much is free.
  ghost predicate Sized(s: seq<int>, r: seq<int>, small: bool, size: int) {
    && |r| == |s|
    && forall i {:trigger r[i]} :: 0 <= i < |s| ==> r[i] == if small && i == |s| - 1 then |s| - 1 - size else s[i]
  }

  method Move(a: array<int>, src: nat, count: nat, dst: nat)
    requires src + count <= a.Length && dst + count <= a.Length
    modifies a
    ensures Moved(old(a[..]), a[..], src, count, dst)
  {
    forall k | 0 <= k < count {
      a[dst + k] := a[src + k];
    }
  }

  method Write(a: array<int>, dst: nat, data: seq<int>)
    requires dst + |data| <= a.Length
    modifies a
    ensures Written(old(a[..]), a[..], dst, data)
  {
    forall k | 0 <= k < |data| {
      a[dst + k] := data[k];
    }
  }

  // A terminated string of the given size; in the small buffer the last cell agrees.
  ghost predicate Terminated(s: seq<int>, small: bool, size: int) {
    0 <= size < |s| && s[size] == 0 && (small ==> s[|s| - 1] == |s| - 1 - size)
  }

  // In place, with at least as many characters after the position as are
  // inserted: the end is copied up and the size set, then the rest moved up.
  ghost predicate LongTail(s: seq<int>, m: seq<int>, s1: seq<int>, s2: seq<int>, r: seq<int>, small: bool,
      size: nat, p: nat, data: seq<int>)
  {
    && 0 < |data| <= size - p && size + |data| < |s|
    && Moved(s, m, size - |data| + 1, |data|, size + 1) && Sized(m, s1, small, size + |data|)
    && Moved(s1, s2, p, size - p - |data| + 1, p + |data|) && Written(s2, r, p, data)
  }

  lemma LongTailAt(s: seq<int>, m: seq<int>, s1: seq<int>, s2: seq<int>, r: seq<int>, small: bool,
      size: nat, p: nat, data: seq<int>, i: nat)
    requires Terminated(s, small, size) && LongTail(s, m, s1, s2, r, small, size, p, data) && i < |s|
    ensures i <= size + |data| ==> r[i] == Cell(s, p, data, i)
    ensures small && i == |s| - 1 ==> r[i] == |s| - 1 - (size + |data|)
  {
    if p <= i < p + |data| {
    } else if p + |data| <= i <= size {
      var k := i - |data|;
      assert r[i] == s2[i] == s1[k] == m[k] == s[k];
    } else if size < i <= size + |data| {
      assert r[i] == s2[i] == s1[i];
      assert m[i] == s[i - |data|];
    } else {
      assert r[i] == s2[i] == s1[i];
      assert m[i] == s[i];
    }
  }

  lemma LongTailInserts(s: seq<int>, m: seq<int>, s1: seq<int>, s2: seq<int>, r: seq<int>, small: bool,
      size: nat, p: nat, data: seq<int>)
    requires Terminated(s, small, size) && LongTail(s, m, s1, s2, r, small, size, p, data)
    ensures Inserted(s, size, p, data, r, small)
  {
    LongTailAt(s, m, s1, s2, r, small, size, p, data, |s| - 1);
    forall i: nat | i <= size + |data| ensures r[i] == Cell(s, p, data, i) {
      LongTailAt(s, m, s1, s2, r, small, size, p, data, i);
    }
  }

  // The characters of a string with data put in at p, terminator included.
  ghost function Cell(s: seq<int>, p: nat, data: seq<int>, i: nat): int
    requires p <= |s| && i < |s| && i < |s| + |data|
  {
    if i < p then s[i] else if i < p + |data| then data[i - p] else s[i - |data|]
  }

  ghost predicate Inserted(s: seq<int>, size: nat, p: nat, data: seq<int>, r: seq<int>, small: bool) {
    && p <= size && size + |data| < |s| && |r| == |s|
    && (forall i :: 0 <= i <= size + |data| ==> r[i] == Cell(s, p, data, i))
    && (small ==> r[|s| - 1] == |s| - 1 - (size + |data|))
  }

  lemma InsertedContents(s: seq<int>, small: bool, size: nat, p: nat, data: seq<int>, r: seq<int>)
    requires Terminated(s, small, size) && Inserted(s, size, p, data, r, small)
    ensures Terminated(r, small, size + |data|) && r[..size + |data|] == s[..p] + data + s[p..size]
  {
    assert r[size + |data|] == Cell(s, p, data, size + |data|);
  }

  // In place, with fewer characters after the position than are inserted: those
  // past the old terminator first, then the old tail, then the others.
  ghost predicate ShortTail(s: seq<int>, w: seq<int>, s1: seq<int>, m: seq<int>, s2: seq<int>, r: seq<int>, small: bool,
      size: nat, p: nat, head: seq<int>, rest: seq<int>)
  {
    && p <= size && |head| == size - p + 1 && size + |head| + |rest| < |s|
    && Written(s, w, size + 1, rest) && Sized(w, s1, small, size + 1 + |rest|)
    && Moved(s1, m, p, |head|, size + 1 + |rest|) && Sized(m, s2, small, size + |head| + |rest|)
    && Written(s2, r, p, head)
  }

  lemma ShortTailAt(s: seq<int>, w: seq<int>, s1: seq<int>, m: seq<int>, s2: seq<int>, r: seq<int>, small: bool,
      size: nat, p: nat, head: seq<int>, rest: seq<int>, i: nat)
    requires Terminated(s, small, size) && ShortTail(s, w, s1, m, s2, r, small, size, p, head, rest) && i < |s|
    ensures i <= size + |head + rest| ==> r[i] == Cell(s, p, head + rest, i)
    ensures small && i == |s| - 1 ==> r[i] == |s| - 1 - (size + |head + rest|)
  {
    if size + 1 + |rest| <= i <= size + |head| + |rest| {
      var k := i - |head| - |rest|;
      assert m[i] == s1[k] == w[k] == s[k];
      assert r[i] == s2[i];
    } else if i < p || size < i {
      assert r[i] == s2[i];
      assert m[i] == s1[i];
      assert i <= size + |rest| ==> s1[i] == w[i];
    }
  }

  lemma ShortTailInserts(s: seq<int>, w: seq<int>, s1: seq<int>, m: seq<int>, s2: seq<int>, r: seq<int>, small: bool,
      size: nat, p: nat, data: seq<int>, k: nat)
    requires Terminated(s, small, size) && k <= |data|
    requires ShortTail(s, w, s1, m, s2, r, small, size, p, data[..k], data[k..])
    ensures Inserted(s, size, p, data, r, small)
  {
    assert data[..k] + data[k..] == data;
    ShortTailAt(s, w, s1, m, s2, r, small, size, p, data[..k], data[k..], |s| - 1);
    forall i: nat | i <= size + |data| ensures r[i] == Cell(s, p, data, i) {
      ShortTailAt(s, w, s1, m, s2, r, small, size, p, data[..k], data[k..], i);
    }
  }

  // ---- the string ----

  // basic_string: its buffer is the small one, whose last cell is the size
  // field, or one from the heap, whose size and capacity are fields.
  class BasicString {
    const smallCapacity: nat
    var onHeap: bool
    var buffer: array<int>
    var heapSize: nat
    var heapCapacity: nat

    // GetSize
    function Size(): int
      reads `onHeap, `heapSize, `buffer, buffer
      requires buffer.Length > 0
    {
      if onHeap then heapSize else buffer.Length - 1 - buffer[buffer.Length - 1]
    }

    // capacity
    function Capacity(): nat
      reads `onHeap, `heapCapacity
    {
      if onHeap then heapCapacity else smallCapacity
    }

    ghost predicate Valid()
      reads this, buffer
    {
      && buffer.Length == Capacity() + 1
      && Terminated(buffer[..], !onHeap, Size())
    }

    ghost function Contents(): seq<int>
      reads this, buffer
      requires Valid()
    {
      buffer[..Size()]
    }

    // Every string starts small and empty.
    constructor (smallCapacity: nat)
      ensures Valid() && Contents() == [] && fresh(buffer) && !onHeap && this.smallCapacity == smallCapacity
    {
      this.smallCapacity := smallCapacity;
      onHeap, heapSize, heapCapacity := false, 0, 0;
      buffer := new int[smallCapacity + 1](_ => 0);
      new;
      buffer[0] := 0;
      buffer[smallCapacity] := smallCapacity;
    }

    // SetSize
    method SetSize(size: nat)
      requires buffer.Length == Capacity() + 1
      modifies this`heapSize, buffer
      ensures Sized(old(buffer[..]), buffer[..], !onHeap, size)
      ensures onHeap ==> heapSize == size
    {
      if onHeap {
        heapSize := size;
      } else {
        buffer[smallCapacity] := smallCapacity - size;
      }
    }

    // The characters of a source.
    ghost function Text(source: Source): seq<int>
      reads this, buffer
      requires Valid() && InRange(source)
    {
      match source
      case Elsewhere(data) => data
      case Own(from, to) => buffer[from..to]
    }

    ghost predicate InRange(source: Source)
      reads this, buffer
      requires Valid()
    {
      source.Own? ==> source.from <= source.to <= Size()
    }

    // Enough room, and as many characters after the position as are inserted.
    method InsertLongTail(p: nat, data: seq<int>)
      requires Valid() && 0 < |data| <= Size() - p && Size() + |data| <= Capacity()
      modifies this`heapSize, buffer
      ensures Valid() && Contents() == old(Contents())[..p] + data + old(Contents())[p..]
    {
      // the new terminator may fall on the size field, so the size is read first
      var saved := Size();
      ghost var s := buffer[..];
      ghost var m, s1, s2 := LongTailCells(p, data, saved);
      LongTailInserts(s, m, s1, s2, buffer[..], !onHeap, saved, p, data);
      Finish(s, !onHeap, saved, p, data);
    }

    method LongTailCells(p: nat, data: seq<int>, saved: nat)
      returns (ghost m: seq<int>, ghost s1: seq<int>, ghost s2: seq<int>)
      requires buffer.Length == Capacity() + 1 && 0 < |data| <= saved - p && saved + |data| <= Capacity()
      modifies this`heapSize, buffer
      ensures LongTail(old(buffer[..]), m, s1, s2, buffer[..], !onHeap, saved, p, data)
      ensures onHeap ==> heapSize == saved + |data|
    {
      var n := |data|;
      m := MoveAndSize(saved - n + 1, n, saved + 1, saved + n);
      s1 := buffer[..];
      s2 := MoveThenWrite(p, saved - p - n + 1, data);
    }

    // Room made for data at p, and data put there.
    method MoveThenWrite(p: nat, count: nat, data: seq<int>) returns (ghost moved: seq<int>)
      requires p + |data| + count <= buffer.Length
      modifies buffer
      ensures Moved(old(buffer[..]), moved, p, count, p + |data|) && Written(moved, buffer[..], p, data)
    {
      Move(buffer, p, count, p + |data|);
      moved := buffer[..];
      Write(buffer, p, data);
    }

    method MoveAndSize(src: nat, count: nat, dst: nat, size: nat) returns (ghost m: seq<int>)
      requires buffer.Length == Capacity() + 1 && src + count <= buffer.Length && dst + count <= buffer.Length
      modifies this`heapSize, buffer
      ensures Moved(old(buffer[..]), m, src, count, dst) && Sized(m, buffer[..], !onHeap, size)
      ensures onHeap ==> heapSize == size
    {
      Move(buffer, src, count, dst);
      m := buffer[..];
      SetSize(size);
    }

    // The cells are those of the string with data inserted.
    ghost method Finish(s: seq<int>, small: bool, size: nat, p: nat, data: seq<int>)
      requires buffer.Length == Capacity() + 1 && small == !onHeap && Terminated(s, small, size)
      requires Inserted(s, size, p, data, buffer[..], small) && (onHeap ==> heapSize == size + |data|)
      ensures Valid() && Contents() == s[..size][..p] + data + s[..size][p..]
    {
      InsertedContents(s, small, size, p, data, buffer[..]);
      assert buffer[..][..size + |data|] == buffer[..size + |data|];
      assert s[..size][..p] == s[..p] && s[..size][p..] == s[p..size];
    }

    // Enough room, and fewer characters after the position.
    method InsertShortTail(p: nat, data: seq<int>)
      requires Valid() && p <= Size() < p + |data| && Size() + |data| <= Capacity()
      modifies this`heapSize, buffer
      ensures Valid() && Contents() == old(Contents())[..p] + data + old(Contents())[p..]
    {
      var after := Size() - p;
      ghost var s, size := buffer[..], Size();
      ghost var w, s1, m, s2 := ShortTailCells(p, data[..after + 1], data[after + 1..]);
      ShortTailInserts(s, w, s1, m, s2, buffer[..], !onHeap, size, p, data, after + 1);
      Finish(s, !onHeap, size, p, data);
    }

    // The size is set twice, and read in between while its field still stands.
    method ShortTailCells(p: nat, head: seq<int>, rest: seq<int>)
      returns (ghost w: seq<int>, ghost s1: seq<int>, ghost m: seq<int>, ghost s2: seq<int>)
      requires Valid() && p <= Size() && |head| == Size() - p + 1 && Size() + |head| + |rest| <= Capacity()
      modifies this`heapSize, buffer
      ensures ShortTail(old(buffer[..]), w, s1, m, s2, buffer[..], !onHeap, old(Size()), p, head, rest)
      ensures onHeap ==> heapSize == old(Size()) + |head| + |rest|
    {
      w := WriteBehind(rest);
      s1 := buffer[..];
      var saved := Size();
      m := MoveAndSize(p, |head|, saved, saved + (|head| - 1));
      s2 := buffer[..];
      Write(buffer, p, head);
    }

    // The characters that go behind the old terminator.
    method WriteBehind(rest: seq<int>) returns (ghost w: seq<int>)
      requires Valid() && Size() + 1 + |rest| <= Capacity()
      modifies this`heapSize, buffer
      ensures Written(old(buffer[..]), w, old(Size()) + 1, rest)
      ensures Sized(w, buffer[..], !onHeap, old(Size()) + 1 + |rest|) && Size() == old(Size()) + 1 + |rest|
    {
      ghost var size := Size();
      Write(buffer, Size() + 1, rest);
      w := buffer[..];
      assert buffer[buffer.Length - 1] == w[buffer.Length - 1];
      assert Size() == size;
      SetSize(Size() + 1 + |rest|);
      assert buffer[buffer.Length - 1] == buffer[..][buffer.Length - 1];
    }

    // GetNewCapacity
    function NewCapacity(current: nat, grow: nat): (r: nat)
      ensures r >= current + grow && r >= 2 * current && (r == current + grow || r == 2 * current)
    {
      if current + grow < 2 * current then 2 * current else current + grow
    }

    // A new buffer takes the contents around the inserted characters, which may
    // come from the old one. It ends on the heap.
    method Reallocate(p: nat, data: seq<int>, length: nat)
      requires Valid() && p <= Size() && length >= Size() + |data|
      modifies this
      ensures Valid() && fresh(buffer) && onHeap && heapCapacity == length
      ensures Contents() == old(Contents())[..p] + data + old(Contents())[p..]
    {
      ghost var was := Contents();
      var size := Size();
      var content := buffer[..p] + data + buffer[p..size] + [0];
      assert content[..size + |data|] == was[..p] + data + was[p..];
      var newBuffer := new int[length + 1](_ => 0);
      Write(newBuffer, 0, content);
      buffer, onHeap, heapCapacity, heapSize := newBuffer, true, length, size + |data|;
      assert buffer[..size + |data|] == content[..size + |data|];
      assert buffer[..][size + |data|] == content[size + |data|];
    }

    // Whether the characters go where the string is: there is room for them, and
    // they do not come from a string on the heap itself.
    ghost predicate InPlace(capacity: nat, size: int, heap: bool, source: Source) {
      Count(source) == 0 || (size + Count(source) <= capacity && !(heap && source.Own?))
    }

    // The capacity of a new buffer: just enough where the old one would have done,
    // else twice the old one if that is enough.
    ghost function Grown(capacity: nat, size: int, count: int): int {
      if size + count <= capacity || 2 * capacity < size + count then size + count else 2 * capacity
    }

    // The range insert, for every layout and every source.
    method Insert(p: nat, source: Source) returns (position: nat)
      requires Valid() && p <= Size() && InRange(source)
      modifies this, buffer
      ensures Valid() && position == p
      ensures Contents() == old(Contents())[..p] + old(Text(source)) + old(Contents())[p..]
      ensures buffer == old(buffer) || (onHeap && fresh(buffer))
      ensures InPlace(old(Capacity()), old(Size()), old(onHeap), source) ==>
        buffer == old(buffer) && onHeap == old(onHeap) && Capacity() == old(Capacity())
      ensures !InPlace(old(Capacity()), old(Size()), old(onHeap), source) ==>
        onHeap && fresh(buffer) && Capacity() == Grown(old(Capacity()), old(Size()), Count(source))
      decreases source.Own?
    {
      position := p;
      var n := Count(source);
      if n == 0 {
        assert Contents() == Contents()[..p] + [] + Contents()[p..];
        assert Text(source) == [];
        return;
      }
      var sufficient := Capacity() - Size() >= n;
      if source.Own? {
        var data := buffer[source.from..source.to];
        if !onHeap {
          // through a temporary string
          position := Insert(p, Elsewhere(data));
        } else {
          Reallocate(p, data, if sufficient then Size() + n else NewCapacity(Capacity(), Size() + n - Capacity()));
        }
      } else if !sufficient {
        Reallocate(p, source.data, NewCapacity(Capacity(), Size() + n - Capacity()));
      } else if Size() - p >= n {
        InsertLongTail(p, source.data);
      } else {
        InsertShortTail(p, source.data);
      }
    }
  }
}
