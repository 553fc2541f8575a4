/** Values shared by the models. */
module Wrappers {

  datatype Option<+T> = None | Some(value: T)
}

/**
 The bounded queue behind every worker manager (pkg/appsrv/ring.go): a circular
 buffer with one spare slot, refined to a bounded FIFO sequence.
 */
module Rings {
  import opened Wrappers

  /** The slot after `idx` in a buffer of `size` slots. */
  function NextPointer(idx: int, size: int): int
  {
    if idx + 1 >= size then 0 else idx + 1
  }

  /** Number of occupied slots between the two pointers. */
  function Distance(tail: int, header: int, size: int): int
  {
    if tail <= header then header - tail else size - tail + header
  }

  /** Slot of the k-th oldest element. */
  function Slot(tail: int, size: int, k: int): int
  {
    if tail + k < size then tail + k else tail + k - size
  }

  class Ring<T> {
    var buffer: array<Option<T>>
    var header: int
    var tail: int

    /** Pointers are in range, the live window is full and every other slot is nil. */
    ghost predicate Valid()
      reads this, buffer
    {
      && (buffer.Length == 0 ==> header == tail == 0)
      && (buffer.Length > 0 ==> 0 <= header < buffer.Length && 0 <= tail < buffer.Length)
      && (forall i :: 0 <= i < buffer.Length ==> (buffer[i].Some? <==> Live(i)))
    }

    /** Slot i lies in the window from tail up to, but not including, header. */
    ghost predicate Live(i: int)
      reads this
    {
      if tail <= header then tail <= i < header else i >= tail || i < header
    }

    /** Oldest element first. */
    ghost function Contents(): (s: seq<T>)
      requires Valid()
      reads this, buffer
      ensures |s| == Distance(tail, header, buffer.Length)
      ensures forall k :: 0 <= k < |s| ==> Some(s[k]) == buffer[Slot(tail, buffer.Length, k)]
    {
      seq(Distance(tail, header, buffer.Length),
          k requires 0 <= k < Distance(tail, header, buffer.Length) && Valid() reads this, buffer =>
            buffer[Slot(tail, buffer.Length, k)].value)
    }

    ghost function CapacitySpec(): int
      reads this
    {
      buffer.Length - 1
    }

    /** `make` refuses a negative length, so -1 is the smallest size the source accepts. */
    constructor (size: int)
      requires size >= -1
      ensures Valid() && fresh(buffer)
      ensures Contents() == [] && CapacitySpec() == size
    {
      buffer := new Option<T>[size + 1](_ => None);
      header, tail := 0, 0;
    }

    method Push(val: T) returns (ok: bool)
      requires Valid()
      modifies this, buffer
      ensures Valid() && buffer == old(buffer)
      ensures ok <==> |old(Contents())| < CapacitySpec()
      ensures Contents() == if ok then old(Contents()) + [val] else old(Contents())
    {
      if NextPointer(header, buffer.Length) == tail {
        return false;
      }
      buffer[header] := Some(val);
      header := NextPointer(header, buffer.Length);
      return true;
    }

    method Pop() returns (r: Option<T>)
      requires Valid()
      modifies this, buffer
      ensures Valid() && buffer == old(buffer)
      ensures r == if old(Contents()) == [] then None else Some(old(Contents())[0])
      ensures Contents() == if old(Contents()) == [] then [] else old(Contents())[1..]
    {
      if tail == header {
        return None;
      }
      r := buffer[tail];
      buffer[tail] := None;
      tail := NextPointer(tail, buffer.Length);
    }

    method Capacity() returns (n: int)
      ensures n == CapacitySpec()
    {
      n := buffer.Length - 1;
    }

    method Size() returns (n: int)
      requires Valid()
      ensures n == |Contents()|
    {
      if tail <= header {
        n := header - tail;
      } else {
        n := buffer.Length - tail + header;
      }
    }

    /**
     Range starts at header and stops as soon as the index equals header, so it
     shows `proc` nothing, whatever is queued.
     */
    method Range(proc: Option<T> -> bool) returns (seen: seq<Option<T>>)
      requires Valid()
      ensures seen == []
    {
      seen := VisitFrom(buffer[..], header, header, tail, proc);
    }
  }

  /** The elements that a scan from slot i, stopped by tail or header, hands to proc. */
  function VisitFrom<T>(buffer: seq<Option<T>>, i: int, header: int, tail: int, proc: Option<T> -> bool): seq<Option<T>>
    requires buffer == [] ==> i == header
    requires buffer != [] ==> 0 <= i < |buffer| && 0 <= tail < |buffer|
    decreases Distance(i, tail, |buffer|)
  {
    if i == tail || i == header then []
    else
      [buffer[i]] + if proc(buffer[i]) then VisitFrom(buffer, NextPointer(i, |buffer|), header, tail, proc) else []
  }
}
