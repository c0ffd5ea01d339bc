/**
The in-memory log buffer of a task: a ring that keeps the last entries, read as a window of the
full log history.
*/
module LogBuffers {
  import opened Arithmetic

  datatype TaskLog = TaskLog(logIndex: nat, message: string)

  function Min(a: nat, b: nat): nat { if a < b then a else b }

  /** The last `n` entries. */
  function Last(history: seq<TaskLog>, n: nat): seq<TaskLog> {
    history[|history| - Min(n, |history|)..]
  }

  /** The entries whose index is at least `from`. */
  function From(entries: seq<TaskLog>, from: nat): seq<TaskLog> {
    if entries == [] then []
    else
      var rest := From(entries[1..], from);
      if entries[0].logIndex >= from then [entries[0]] + rest else rest
  }

  function Limit(entries: seq<TaskLog>, limit: nat): seq<TaskLog> {
    if limit == 0 then entries else entries[..Min(limit, |entries|)]
  }

  /** Log indexes count up from `first`. */
  ghost predicate Numbered(entries: seq<TaskLog>, first: nat) {
    forall i :: 0 <= i < |entries| ==> entries[i].logIndex == first + i
  }

  /** On consecutively numbered entries, selecting by index is dropping a prefix. */
  lemma {:induction false} FromDrops(entries: seq<TaskLog>, first: nat, from: nat)
    requires Numbered(entries, first)
    ensures From(entries, from) ==
            if from <= first then entries else if from - first >= |entries| then [] else entries[from - first..]
    decreases |entries|
  {
    if entries != [] {
      assert forall i :: 0 <= i < |entries[1..]| ==> entries[1..][i] == entries[i + 1];
      FromDrops(entries[1..], first + 1, from);
      assert entries == [entries[0]] + entries[1..];
    }
  }

  lemma {:induction false} LastNumbered(history: seq<TaskLog>, n: nat)
    requires Numbered(history, 1)
    ensures Numbered(Last(history, n), |history| - Min(n, |history|) + 1)
  {
  }

  /** Position of the first selected entry in a log of `n` entries; the entry at a position has the next
      higher index. */
  function Start(n: nat, size: nat, from: nat): (lo: nat)
    ensures lo <= n
  {
    var oldest := if n > size then n - size else 0;
    if from > n then n else if from > oldest + 1 then from - 1 else oldest
  }

  /** The selected entries by position. */
  function Selected(history: seq<TaskLog>, size: nat, from: nat, limit: nat): seq<TaskLog> {
    var n, lo := |history|, Start(|history|, size, from);
    history[lo..if limit == 0 || lo + limit > n then n else lo + limit]
  }

  lemma {:induction false} FromLast(history: seq<TaskLog>, size: nat, from: nat)
    requires Numbered(history, 1)
    ensures From(Last(history, size), from) == history[Start(|history|, size, from)..]
  {
    var n := |history|;
    var oldest := n - Min(size, n);
    LastNumbered(history, size);
    FromDrops(history[oldest..], oldest + 1, from);
    if oldest + 1 < from <= n {
      assert history[oldest..][from - (oldest + 1)..] == history[from - 1..];
    }
  }

  lemma {:induction false} SelectedIs(history: seq<TaskLog>, size: nat, from: nat, limit: nat)
    requires Numbered(history, 1)
    ensures Selected(history, size, from, limit) == Limit(From(Last(history, size), from), limit)
  {
    FromLast(history, size, from);
    var n, lo := |history|, Start(|history|, size, from);
    var rest := history[lo..];
    assert history[lo..n] == rest && rest[..|rest|] == rest;
    if 0 < limit <= |rest| {
      assert Selected(history, size, from, limit) == history[lo..lo + limit];
      assert rest[..limit] == history[lo..lo + limit];
    } else {
      assert Selected(history, size, from, limit) == rest;
      assert Limit(rest, limit) == rest;
    }
  }

  /** Slot `i` of the ring holds the newest entry whose position is `i` modulo the size. */
  ghost predicate RingOf(buf: seq<TaskLog>, size: nat, history: seq<TaskLog>)
    requires size > 0
  {
    if |history| <= size then buf == history
    else
      var first := |history| % size;
      |buf| == size && buf[first..] + buf[..first] == history[|history| - size..]
  }

  lemma {:induction false} RingRead(buf: seq<TaskLog>, size: nat, history: seq<TaskLog>)
    requires size > 0 && RingOf(buf, size, history)
    ensures |history| >= size ==>
              |buf| == size && buf[|history| % size..] + buf[..|history| % size] == Last(history, size)
  {
    if |history| == size {
      assert size % size == 0;
      assert buf[0..] + buf[..0] == buf;
    }
  }

  /** Overwriting the oldest slot keeps the ring. */
  lemma {:induction false} RingWrite(buf: seq<TaskLog>, size: nat, history: seq<TaskLog>, e: TaskLog)
    requires size > 0 && RingOf(buf, size, history) && |history| >= size
    ensures |buf| == size && RingOf(buf[|history| % size := e], size, history + [e])
  {
    RingRead(buf, size, history);
    var n := |history|;
    var k := n % size;
    var buf' := buf[k := e];
    var window := buf[k..] + buf[..k];
    assert window == history[n - size..];
    NextRemainder(n, size);
    var k' := (n + 1) % size;
    var want := (history + [e])[n + 1 - size..];
    assert want == window[1..] + [e];
    if k' == 0 {
      assert buf'[0..] + buf'[..0] == buf' == buf[..k] + [e];
      assert window == [buf[k]] + buf[..k];
    } else {
      assert buf'[k'..] + buf'[..k'] == buf[k + 1..] + buf[..k] + [e];
      assert window[1..] == buf[k + 1..] + buf[..k];
    }
  }

  class LogMemBuffer {
    const bufferSize: nat
    var bufIdx: nat
    var lastIdx: nat
    var buf: seq<TaskLog>
    ghost var history: seq<TaskLog>    // everything ever written

    ghost predicate Valid()
      reads this
    {
      && bufferSize > 0 && bufIdx == lastIdx == |history|
      && Numbered(history, 1) && RingOf(buf, bufferSize, history)
    }

    constructor (bufferSize: nat)
      requires bufferSize > 0
      ensures Valid() && history == [] && this.bufferSize == bufferSize
    {
      this.bufferSize := bufferSize;
      bufIdx, lastIdx, buf, history := 0, 0, [], [];
    }

    method Fire(message: string)
      requires Valid()
      modifies this
      ensures Valid() && history == old(history) + [TaskLog(|old(history)| + 1, message)]
    {
      lastIdx := lastIdx + 1;
      var taskLog := TaskLog(lastIdx, message);
      if bufIdx >= bufferSize {
        RingWrite(buf, bufferSize, history, taskLog);
        buf := buf[bufIdx % bufferSize := taskLog];
      } else {
        buf := buf + [taskLog];
      }
      bufIdx := bufIdx + 1;
      history := history + [taskLog];
    }

    /** The window of the full history: the last `bufferSize` entries, of these the ones from index
        `from` on, of these the first `limit` (0: all). */
    method GetLogEntries(from: nat, limit: nat) returns (entries: seq<TaskLog>)
      requires Valid()
      ensures entries == Limit(From(Last(history, bufferSize), from), limit)
      ensures entries == Selected(history, bufferSize, from, limit)
    {
      SelectedIs(history, bufferSize, from, limit);
      if bufIdx >= bufferSize {
        var firstIdx := bufIdx % bufferSize;
        RingRead(buf, bufferSize, history);
        entries := buf[firstIdx..] + buf[..firstIdx];
      } else {
        entries := buf;
      }
      assert entries == Last(history, bufferSize);
      if |entries| == 0 {
        return;
      }
      var first := entries[0].logIndex;
      LastNumbered(history, bufferSize);
      FromDrops(entries, first, from);
      if first < from {
        var indexDiff := from - first;
        if indexDiff >= |entries| {
          return [];
        }
        entries := entries[indexDiff..];
      }
      if limit != 0 && |entries| > limit {
        entries := entries[..limit];
      }
    }
  }
}
