/** The circular buffer and the kernel message log built on it. */
module KernelLog {
  import opened Basics

  // ----- modular indices -----

  /** The cell at an offset from the head. */
  function Slot(head: nat, cap: nat, i: nat): (c: nat)
    requires head < cap
  {
    (head + i) % cap
  }

  /** Up to one capacity, an offset wraps at most once. */
  lemma SlotWraps(head: nat, cap: nat, i: nat)
    requires head < cap && i <= cap
    ensures Slot(head, cap, i) == if head + i < cap then head + i else head + i - cap
  {
    var q, r := (head + i) / cap, (head + i) % cap;
    assert head + i == q * cap + r;
    assert q >= 2 ==> q * cap >= 2 * cap;
  }

  /** Within one capacity, different offsets from the head are different cells. */
  lemma SlotsDiffer(head: nat, cap: nat, i: nat, j: nat)
    requires head < cap && i < j <= cap && j - i < cap
    ensures Slot(head, cap, i) != Slot(head, cap, j)
  {
    SlotWraps(head, cap, i);
    SlotWraps(head, cap, j);
  }

  /** Moving the head by one moves every offset by one, and so does moving the end. */
  lemma NextSlot(head: nat, cap: nat, i: nat)
    requires head < cap && i < cap
    ensures Slot(head, cap, i) < cap && Slot(head, cap, 1) < cap
    ensures Slot(Slot(head, cap, 1), cap, i) == Slot(head, cap, i + 1)
    ensures Slot(Slot(head, cap, i), cap, 1) == Slot(head, cap, i + 1)
  {
    SlotWraps(head, cap, 1);
    SlotWraps(head, cap, i);
    SlotWraps(head, cap, i + 1);
    SlotWraps(Slot(head, cap, 1), cap, i);
    SlotWraps(Slot(head, cap, i), cap, 1);
  }

  // ----- the circular buffer -----

  class Ring<T> {
    const buffer: array<T>
    const capacity: nat
    var head: nat
    var tail: nat
    var size: nat

    ghost predicate Valid()
      reads this
    {
      && buffer.Length == capacity
      && if capacity == 0 then head == 0 && tail == 0 && size == 0
         else head < capacity && size <= capacity && tail == Slot(head, capacity, size)
    }

    /** The cell of the i-th oldest element. */
    function Cell(i: nat): (c: nat)
      requires Valid() && capacity > 0
      reads this
      ensures c < capacity
    {
      Slot(head, capacity, i)
    }

    /** Oldest first. */
    ghost function Contents(): (s: seq<T>)
      requires Valid()
      reads this, buffer
      ensures |s| == size && forall i :: 0 <= i < size ==> s[i] == buffer[Cell(i)]
    {
      seq(size, i requires 0 <= i < size && Valid() reads this, buffer => buffer[Cell(i)])
    }

    constructor (n: nat, zero: T)
      ensures Valid() && fresh(buffer) && capacity == n && Contents() == []
    {
      buffer := new T[n](_ => zero);
      capacity, head, tail, size := n, 0, 0, 0;
    }

    predicate Full()
      reads this
    {
      size == capacity
    }

    predicate Empty()
      reads this
    {
      size == 0
    }

    /** With no element the cell keeps what it had and still becomes part of the contents. */
    method Enqueue(e: Option<T>)
      requires Valid()
      modifies this, buffer
      ensures Valid()
      ensures old(Full()) ==> Contents() == old(Contents())
      ensures !old(Full()) ==> Contents() == old(Contents()) + [if e.Some? then e.value else old(buffer[tail])]
    {
      if Full() {
        return;
      }
      ghost var h, n := head, size;
      forall i: nat | i < n ensures Slot(h, capacity, i) != tail { SlotsDiffer(h, capacity, i, n); }
      NextSlot(h, capacity, n);
      hide Slot;
      if e.Some? {
        buffer[tail] := e.value;
      }
      size := size + 1;
      tail := Slot(tail, capacity, 1);
    }

    method Dequeue() returns (e: Option<T>)
      requires Valid()
      modifies this
      ensures Valid()
      ensures old(Empty()) ==> e == None && Contents() == old(Contents())
      ensures !old(Empty()) ==> e == Some(old(Contents())[0]) && Contents() == old(Contents())[1..]
    {
      if Empty() {
        return None;
      }
      SlotWraps(head, capacity, 0);
      NextSlot(head, capacity, 0);
      hide Slot;
      e := Some(buffer[head]);
      ghost var h, n, old_ := head, size, Contents();
      assert old_[0] == buffer[Cell(0)];
      forall i: nat | i < n ensures Slot(Slot(h, capacity, 1), capacity, i) == Slot(h, capacity, i + 1) {
        NextSlot(h, capacity, i);
      }
      size := size - 1;
      head := Slot(head, capacity, 1);
    }

    /** circular_buffer_get; with capacity 0 it would divide by zero. */
    method Get(index: nat) returns (e: T)
      requires Valid() && capacity > 0
      ensures index < size ==> e == Contents()[index]
    {
      e := buffer[Slot(head, capacity, index)];
    }
  }

  // ----- the message log -----

  const MSG_BUFFER_SIZE: nat := 128
  const MSG_LOG_SIZE: nat := 128

  datatype Log = Log(level: int, message: string)

  /** The text a record keeps of a message. */
  function Kept(message: string): string {
    if |message| >= MSG_LOG_SIZE then message[..MSG_LOG_SIZE - 1] else message
  }

  /** The zero-filled record with the text copied in. */
  function Record(level: int, message: string): (r: Log)
    ensures |r.message| == MSG_LOG_SIZE && r.level == level
  {
    Log(level, Kept(message) + seq(MSG_LOG_SIZE - |Kept(message)|, _ => NUL))
  }

  /** The C string in a character array. */
  function CString(s: string): string {
    if s == [] || s[0] == NUL then [] else [s[0]] + CString(s[1..])
  }

  /** Reading the record back gives the level, and as a C string the first 127 characters of the
      message. */
  lemma {:induction false} RecordText(level: int, message: string)
    requires NUL !in message
    ensures Record(level, message).level == level
    ensures CString(Record(level, message).message) == if |message| > 127 then message[..127] else message
  {
    CStringOf(Kept(message), seq(MSG_LOG_SIZE - |Kept(message)|, _ => NUL));
  }

  lemma {:induction false} CStringOf(t: string, z: string)
    requires NUL !in t && z != [] && z[0] == NUL
    ensures CString(t + z) == t
  {
    if t == [] {
      assert t + z == z;
    } else {
      assert (t + z)[1..] == t[1..] + z;
      CStringOf(t[1..], z);
    }
  }

  /** The last n elements. */
  function Last<T>(s: seq<T>, n: nat): seq<T> { if |s| <= n then s else s[|s| - n..] }

  /** Element i of the last n is element |s| - n + i of all, and a shorter sequence is kept whole. */
  lemma LastAt<T>(s: seq<T>, n: nat)
    ensures |Last(s, n)| == (if |s| < n then |s| else n)
    ensures forall i :: 0 <= i < |Last(s, n)| ==> Last(s, n)[i] == s[|s| - |Last(s, n)| + i]
  {}

  class MessageLog {
    const ring: Ring<Log>
    /** Everything that was ever logged. */
    ghost var history: seq<Log>

    ghost predicate Valid()
      reads this, ring, ring.buffer
    {
      ring.Valid() && ring.capacity == MSG_BUFFER_SIZE && ring.Contents() == Last(history, MSG_BUFFER_SIZE)
    }

    constructor ()
      ensures Valid() && history == [] && fresh(ring) && fresh(ring.buffer)
    {
      ring := new Ring<Log>(MSG_BUFFER_SIZE, Log(0, []));
      history := [];
    }

    /** kmessage: the log is always exactly the most recent 128 messages. */
    method Kmessage(level: int, message: string)
      requires Valid()
      modifies this, ring, ring.buffer
      ensures Valid() && history == old(history) + [Record(level, message)]
      // the new record is the last; when the log is full the oldest one makes room
      ensures ring.Contents() ==
              (if |old(ring.Contents())| < 128 then old(ring.Contents()) else old(ring.Contents())[1..]) + [Record(level, message)]
    {
      var log := Record(level, message);
      if ring.Full() {
        var dropped := ring.Dequeue();
      }
      ring.Enqueue(Some(log));
      history := history + [log];
    }

    /** The walk of the shell command `message`. */
    method Dump() returns (logs: seq<Log>)
      requires Valid()
      ensures logs == Last(history, MSG_BUFFER_SIZE)
      ensures |logs| == if |history| < 128 then |history| else 128
      ensures forall i :: 0 <= i < |logs| ==> logs[i] == history[|history| - |logs| + i]
    {
      hide Last;
      ghost var all := ring.Contents();
      logs := [];
      var i := 0;
      while i < ring.size
        invariant 0 <= i <= ring.size && logs == all[..i]
      {
        var e := ring.Get(i);
        assert all[..i + 1] == all[..i] + [e];
        logs := logs + [e];
        i := i + 1;
      }
      assert logs == all;
      LastAt(history, MSG_BUFFER_SIZE);
    }
  }

  /** Which messages are among the last ones. */
  lemma KeptRecords(history: seq<Log>, levels: seq<int>, messages: seq<string>)
    requires |levels| == |messages| == |history|
    requires forall i :: 0 <= i < |messages| ==> history[i] == Record(levels[i], messages[i])
    ensures var c, n := Last(history, MSG_BUFFER_SIZE), |messages|;
            && |c| == (if n < 128 then n else 128)
            && forall i :: 0 <= i < |c| ==> c[i] == Record(levels[n - |c| + i], messages[n - |c| + i])
  {
    LastAt(history, MSG_BUFFER_SIZE);
    hide Last, Record;
  }

  /** After any sequence of kmessage calls the log holds the last min(n, 128) records in order. */
  method LogAll(log: MessageLog, levels: seq<int>, messages: seq<string>)
    requires log.Valid() && log.history == [] && |levels| == |messages|
    modifies log, log.ring, log.ring.buffer
    ensures log.Valid() && |log.history| == |messages|
    ensures forall i :: 0 <= i < |messages| ==> log.history[i] == Record(levels[i], messages[i])
    ensures log.ring.Contents() == Last(log.history, MSG_BUFFER_SIZE)
    ensures var c, n := log.ring.Contents(), |messages|;
            && |c| == (if n < 128 then n else 128)
            && forall i :: 0 <= i < |c| ==> c[i] == Record(levels[n - |c| + i], messages[n - |c| + i])
  {
    hide Last, Record;
    for n := 0 to |messages|
      invariant log.Valid() && |log.history| == n
      invariant forall i :: 0 <= i < n ==> log.history[i] == Record(levels[i], messages[i])
    {
      log.Kmessage(levels[n], messages[n]);
    }
    KeptRecords(log.history, levels, messages);
  }
}
