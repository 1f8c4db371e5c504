/** The in-memory log behind the log page: a ring of 8192 characters written one line at a time and dumped
    in chunks. */
module LogRing {
  import opened Wrappers

  const LOG_BUFFER_SIZE := 8192
  const LINE_MAX := 255
  const NUL := '\0'

  /** The last characters of everything logged, as many as the ring holds. */
  function Tail(logged: string): string {
    logged[|logged| - Min(|logged|, LOG_BUFFER_SIZE)..]
  }

  /** What a log call adds to the log. */
  function Written(line: string, beyond: string): string
    requires |line| <= LINE_MAX + 1 + |beyond|
  {
    if |line| <= LINE_MAX then line else line[..LINE_MAX] + [NUL] + beyond[..|line| - LINE_MAX - 1]
  }

  /** A line is logged as it was formatted if and only if it fits the array with its NUL. */
  lemma LineIsKeptExactly(line: string, beyond: string)
    requires |line| <= LINE_MAX + 1 + |beyond| && NUL !in line
    ensures Written(line, beyond) == line <==> |line| <= LINE_MAX
  {
    if |line| > LINE_MAX {
      assert Written(line, beyond)[LINE_MAX] == NUL != line[LINE_MAX];
    }
  }

  /** The last 8192 characters, or all if there are fewer. */
  lemma TailExactly(logged: string)
    ensures |logged| <= 8192 ==> Tail(logged) == logged
    ensures |logged| > 8192 ==> Tail(logged) == logged[|logged| - 8192..]
  {
  }

  /** What a line longer than its array leaves: its first 255 characters, the NUL, and what lies behind. */
  lemma LongLine(line: string, beyond: string)
    requires 255 < |line| <= 256 + |beyond|
    ensures Written(line, beyond) == line[..255] + ['\0'] + beyond[..|line| - 256]
  {
  }

  function Flatten(chunks: seq<string>): string {
    if chunks == [] then "" else Flatten(chunks[..|chunks| - 1]) + chunks[|chunks| - 1]
  }

  lemma FlattenSnoc(chunks: seq<string>, chunk: string)
    ensures Flatten(chunks + [chunk]) == Flatten(chunks) + chunk
  {
    assert (chunks + [chunk])[..|chunks|] == chunks;
  }

  /** Positions less than a ring's length apart fall on different cells. */
  lemma DifferentCells(a: nat, b: nat)
    requires a < b < a + LOG_BUFFER_SIZE
    ensures a % LOG_BUFFER_SIZE != b % LOG_BUFFER_SIZE
  {
    assert b == (b / LOG_BUFFER_SIZE) * LOG_BUFFER_SIZE + b % LOG_BUFFER_SIZE;
  }

  lemma NextCell(a: nat)
    ensures (a + 1) % LOG_BUFFER_SIZE == (a % LOG_BUFFER_SIZE + 1) % LOG_BUFFER_SIZE
  {
  }

  /** Where the dump looks for its `i`-th character: counting back from the head, modulo the length. */
  lemma DumpCell(total: nat, count: nat, i: nat)
    requires count <= LOG_BUFFER_SIZE && count <= total && i < count
    ensures var start := (total % LOG_BUFFER_SIZE + LOG_BUFFER_SIZE - count) % LOG_BUFFER_SIZE;
      (start + i) % LOG_BUFFER_SIZE == (total - count + i) % LOG_BUFFER_SIZE
  {
  }

  /** `LogBuffer`, `LogHead` and `LogCount`. */
  class Ring {
    const buffer: array<char>
    var head: nat
    var count: nat
    ghost var logged: string

    ghost predicate Valid()
      reads this, buffer
    {
      && buffer.Length == LOG_BUFFER_SIZE
      && head == |logged| % LOG_BUFFER_SIZE
      && count == Min(|logged|, LOG_BUFFER_SIZE)
      && forall k {:trigger logged[k]} ::
           |logged| - count <= k < |logged| ==> buffer[k % LOG_BUFFER_SIZE] == logged[k]
    }

    constructor ()
      ensures Valid() && fresh(buffer) && logged == ""
    {
      buffer := new char[LOG_BUFFER_SIZE](_ => '\0');
      head, count, logged := 0, 0, "";
    }

    method Push(c: char)
      requires Valid()
      modifies this, buffer
      ensures Valid() && logged == old(logged) + [c]
    {
      NextCell(|logged|);
      ghost var before := logged;
      buffer[head] := c;
      head := (head + 1) % LOG_BUFFER_SIZE;
      if count < LOG_BUFFER_SIZE {
        count := count + 1;
      }
      logged := logged + [c];
      forall k | |logged| - count <= k < |logged|
        ensures buffer[k % LOG_BUFFER_SIZE] == logged[k]
      {
        if k < |before| {
          DifferentCells(k, |before|);
          assert logged[k] == before[k];
        }
      }
    }

    /** `web_log_vprintf` for the formatted text `line`, cut to the array it is formatted into; the loop runs over
        the uncut length, so for a longer text it goes on into `beyond`, whatever the memory there holds. */
    method WriteLine(line: string, beyond: string)
      requires Valid() && |line| <= LINE_MAX + 1 + |beyond|
      modifies this, buffer
      ensures Valid() && logged == old(logged) + Written(line, beyond)
    {
      var len := |line|;
      var temp := line[..Min(len, LINE_MAX)] + [NUL] + beyond;
      assert temp[..len] == Written(line, beyond);
      for i := 0 to len
        invariant Valid() && logged == old(logged) + temp[..i]
      {
        Push(temp[i]);
        assert temp[..i + 1] == temp[..i] + [temp[i]];
      }
    }

    /** The loop that copies one chunk out of the ring. */
    method CopyChunk(start: nat, sent: nat, len: nat) returns (chunk: string)
      requires Valid() && sent + len <= count
      requires start == (head + LOG_BUFFER_SIZE - count) % LOG_BUFFER_SIZE
      ensures chunk == Tail(logged)[sent..sent + len]
    {
      ghost var tail := Tail(logged);
      chunk := "";
      for i := 0 to len
        invariant chunk == tail[sent..sent + i]
      {
        DumpCell(|logged|, count, sent + i);
        assert tail[sent + i] == logged[|logged| - count + sent + i];
        chunk := chunk + [buffer[(start + sent + i) % LOG_BUFFER_SIZE]];
      }
    }

    /** `api_logs_get_handler` while nothing is written; the client takes `accepted` chunks before a send fails.
        Whatever the chunk size, what reaches the client is a prefix of the last characters logged, in order, and
        all of them exactly when no send failed. */
    method Dump(chunkMax: nat, accepted: nat) returns (chunks: seq<string>, complete: bool)
      requires Valid() && 0 < chunkMax
      ensures forall i :: 0 <= i < |chunks| ==> 0 < |chunks[i]| <= chunkMax
      ensures Flatten(chunks) <= Tail(logged)
      ensures complete <==> Flatten(chunks) == Tail(logged)
      ensures !complete ==> |chunks| == accepted
    {
      var start := (head + LOG_BUFFER_SIZE - count) % LOG_BUFFER_SIZE;
      ghost var tail := Tail(logged);
      chunks := [];
      var sent := 0;
      while sent < count
        invariant sent <= count == |tail| && |chunks| <= accepted && Flatten(chunks) == tail[..sent]
        invariant forall i :: 0 <= i < |chunks| ==> 0 < |chunks[i]| <= chunkMax
      {
        if |chunks| == accepted {
          return chunks, false;
        }
        var len := Min(count - sent, chunkMax);
        var chunk := CopyChunk(start, sent, len);
        FlattenSnoc(chunks, chunk);
        chunks := chunks + [chunk];
        sent := sent + len;
      }
      complete := true;
    }
  }
}
