/** The Chase-Lev ring buffer as an object, for callers that use it one operation at a time. */
module ChaseLevQueue {
  import opened Deque
  import opened PowerOfTwo

  class ChaseLevQueue<T(0)> {
    const buffer: array<T>
    const maxSize: nat
    var top: int
    var bottom: int

    ghost predicate Valid()
      reads this
    {
      && buffer.Length == maxSize
      && (maxSize > 0 ==> exists k :: maxSize == Pow2(k))
      && 0 <= top <= bottom <= top + maxSize
    }

    /** Oldest element first. */
    ghost function Contents(): (q: seq<T>)
      reads this, buffer
      requires Valid()
    {
      seq(bottom - top, i requires 0 <= i < bottom - top && Valid() reads this, buffer =>
            buffer[(top + i) % maxSize])
    }

    constructor (size: nat)
      requires size <= WORD / 4
      ensures Valid() && fresh(buffer) && Contents() == [] && maxSize == RoundUp(size)
    {
      maxSize := RoundUp(size);
      buffer := new T[RoundUp(size)];
      top, bottom := 0, 0;
      new;
      if size > 0 { ghost var k := RoundedIsPower(size); }
    }

    /** index & mask */
    function Index(i: nat): (r: nat)
      reads this
      requires Valid() && maxSize > 0
      ensures r == i % maxSize
    {
      ghost var k :| maxSize == Pow2(k);
      MaskIsRemainder(i, k);
      And(i, maxSize - 1)
    }

    method PushBottom(task: T) returns (ok: bool)
      requires Valid()
      modifies this`bottom, buffer
      ensures Valid()
      ensures Legal(maxSize, old(Contents()), Op.PushBottom(task), if ok then Accepted else Full, Contents())
    {
      if bottom - top >= maxSize {
        return false;
      }
      buffer[Index(bottom)] := task;
      bottom := bottom + 1;
      forall i | 0 <= i < bottom - 1 - top ensures Contents()[i] == old(Contents())[i] {
        DistinctSlots(top + i, bottom - 1, maxSize);
      }
      return true;
    }

    method PopBottom() returns (task: Option<T>)
      requires Valid()
      modifies this
      ensures Valid()
      ensures Legal(maxSize, old(Contents()), Op.PopBottom,
                    if task.Some? then Got(task.value) else Nothing, Contents())
    {
      bottom := bottom - 1;
      if bottom < top {
        bottom := top;
        return None;
      }
      var x := buffer[Index(bottom)];
      if bottom == top {
        top := top + 1;
        bottom := top;
      }
      return Some(x);
    }

    /** Without other callers PopTop gives up only on an empty deque. */
    method PopTop() returns (task: Option<T>)
      requires Valid()
      modifies this`top
      ensures Valid()
      ensures Legal(maxSize, old(Contents()), Op.PopTop,
                    if task.Some? then Got(task.value) else Nothing, Contents())
      ensures task.None? <==> old(Contents()) == []
    {
      if top >= bottom {
        return None;
      }
      var x := buffer[Index(top)];
      top := top + 1;
      assert Contents() == old(Contents())[1..] by {
        forall i | 0 <= i < bottom - top ensures Contents()[i] == old(Contents())[1..][i] {
          assert old(Contents())[1 + i] == old(buffer[(top + (1 + i)) % maxSize]);
        }
      }
      return Some(x);
    }

    /** The clamp at zero matters only while a PopBottom is in progress. */
    function Size(): (r: nat)
      reads this, buffer
      requires Valid()
      ensures r == |Contents()|
    {
      bottom - top
    }
  }
}
