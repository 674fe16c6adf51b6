/** The VBVA guest/host ring of the VirtualBox video driver: a byte ring that the guest fills and the
    host drains on its own, and a ring of record slots that says how many bytes belong together. */
module Vbva {
  import opened Options
  import opened Widths
  import opened Arithmetic

  const VBVA_MAX_RECORDS: nat := 64
  const VBVA_F_RECORD_PARTIAL: nat := 0x8000_0000

  newtype byte = x: int | 0 <= x < 256

  // ---- Rings as queues ----

  /** The position `i` steps after `start` in a ring of `len` entries. */
  function Pos(start: nat, i: nat, len: nat): (p: nat)
    requires start < len && i <= len
    ensures p < len
  {
    if start + i < len then start + i else start + i - len
  }

  /** The C code writes positions with a remainder. */
  lemma PosIsMod(start: nat, i: nat, len: nat)
    requires start < len && i <= len
    ensures (start + i) % len == Pos(start, i, len)
  {
    DivUnique(start + i, len, if start + i < len then 0 else 1, Pos(start, i, len));
  }

  /** The n entries of a ring from position `start` on, wrapping at the end. */
  ghost function Slice<T>(ring: seq<T>, start: nat, n: nat): (s: seq<T>)
    requires start < |ring| && n <= |ring|
    ensures |s| == n
  {
    seq(n, i requires 0 <= i < n => ring[Pos(start, i, |ring|)])
  }

  /** How many entries lie between a read position and a write position. */
  function Used(read: nat, write: nat, len: nat): (n: nat)
    requires read < len && write < len
    ensures n < len && write == Pos(read, n, len)
  {
    if write >= read then write - read else write + len - read
  }

  /** `after` holds `p` from position `at` on, and is otherwise `before`. */
  ghost predicate Placed<T>(before: seq<T>, after: seq<T>, at: nat, p: seq<T>) {
    && |after| == |before| && at < |before| && |p| <= |before|
    && forall k :: 0 <= k < |before| ==>
      after[k] == (if Used(at, k, |before|) < |p| then p[Used(at, k, |before|)] else before[k])
  }

  /** Placing entries at the write position appends them to the queue and leaves what is unread alone. */
  lemma PlaceAppends<T>(before: seq<T>, after: seq<T>, read: nat, n: nat, p: seq<T>)
    requires read < |before| && n + |p| <= |before|
    requires Placed(before, after, Pos(read, n, |before|), p)
    ensures Slice(after, read, n + |p|) == Slice(before, read, n) + p
  {
    var s := Slice(after, read, n + |p|);
    var q := Slice(before, read, n) + p;
    forall i | 0 <= i < n + |p| ensures s[i] == q[i] {}
  }

  /** Reading m entries takes them from the front. */
  lemma AdvanceDrops<T>(ring: seq<T>, read: nat, n: nat, m: nat)
    requires read < |ring| && m <= n <= |ring|
    ensures Slice(ring, read, m) == Slice(ring, read, n)[..m]
    ensures Slice(ring, Pos(read, m, |ring|), n - m) == Slice(ring, read, n)[m..]
  {}

  /** What was fetched before, then during, a step, in front of what is left. */
  lemma Chain<T>(fetched: seq<T>, got: seq<T>, left: seq<T>, queue: seq<T>, added: seq<T>)
    requires got + left == queue + added
    ensures (fetched + got) + left == (fetched + queue) + added
    ensures (fetched + queue) + added == fetched + (queue + added)
  {
    assert (fetched + got) + left == fetched + (got + left);
  }

  /** A round of a write goes on where the last one ended. */
  lemma WriteChain<T>(
    start: seq<T>, p: seq<T>, done: nat, n: nat, fetched: seq<T>, got: seq<T>, before: seq<T>, after: seq<T>)
    requires done + n <= |p| && fetched + before == start + p[..done] && got + after == before + p[done..][..n]
    ensures (fetched + got) + after == start + p[..done + n]
  {
    assert p[..done + n] == p[..done] + p[done..][..n];
    assert (fetched + got) + after == fetched + (got + after);
    assert fetched + (before + p[done..][..n]) == (fetched + before) + p[done..][..n];
    assert (start + p[..done]) + p[done..][..n] == start + (p[..done] + p[done..][..n]);
  }

  lemma SliceHead<T>(ring: seq<T>, start: nat, n: nat)
    requires start < |ring| && 0 < n <= |ring|
    ensures Slice(ring, start, n)[0] == ring[start]
  {}

  // ---- 32-bit arithmetic ----

  function ToU32(x: int): nat { x % U32 }

  lemma CountMod(a: nat, n: nat)
    ensures ToU32(ToU32(a) + n) == ToU32(a + n)
  {
    var q, r := a / U32, a % U32;
    DivUnique(a + n, U32, q + (r + n) / U32, (r + n) % U32);
  }

  function ToS32(x: int): int {
    var u := x % U32;
    if u < 0x8000_0000 then u else u - U32
  }

  // vbva_buffer_available
  function BufferAvailable(dataOffset: nat, freeOffset: nat, dataLen: nat): nat {
    var diff := ToS32(dataOffset - freeOffset);
    if diff > 0 then diff else ToU32(dataLen + diff)
  }

  /** The room is everything that is not unread, and an empty ring offers all of it, exactly while the
      distance of the two offsets fits a signed 32-bit number; with at most 2 GB of data it always does. */
  lemma AvailableIsFree(dataOffset: nat, freeOffset: nat, dataLen: nat)
    requires dataOffset < dataLen && freeOffset < dataLen < U32
    ensures BufferAvailable(dataOffset, freeOffset, dataLen) == dataLen - Used(dataOffset, freeOffset, dataLen)
       <==> -0x8000_0000 <= dataOffset - freeOffset < 0x8000_0000
  {}

  /** What the host does when it gets a turn: it sets or clears the mode-enabled event, takes up to
      `fetch` unread bytes, and retires the oldest record if `retire` is set and that record is
      complete. */
  datatype HostMove = HostMove(enable: bool, fetch: nat, retire: bool)

  /** The record queue without its oldest record, if that is complete. */
  function Retired(queue: seq<nat>): seq<nat> {
    if queue != [] && queue[0] < VBVA_F_RECORD_PARTIAL then queue[1..] else queue
  }

  /** The record queue after the host's turn. */
  function Kept(queue: seq<nat>, host: seq<HostMove>, turn: nat): seq<nat> {
    if turn < |host| && host[turn].retire then Retired(queue) else queue
  }

  /** A turn of the host makes room in a full record queue exactly when it retires and the oldest record is
      complete; what it leaves are the newer records. */
  lemma KeptMakesRoom(queue: seq<nat>, host: seq<HostMove>, turn: nat)
    requires queue != []
    ensures var kept := Kept(queue, host, turn);
      && (|kept| < |queue| <==> turn < |host| && host[turn].retire && queue[0] < VBVA_F_RECORD_PARTIAL)
      && (kept == queue || [queue[0]] + kept == queue)
  {
    assert [queue[0]] + queue[1..] == queue;
  }

  // ---- How far a write gets ----

  /** The bytes still unread after the host's turn. */
  function Take(used: nat, host: seq<HostMove>, turn: nat): (left: nat)
    ensures left <= used
  {
    if turn < |host| then (if host[turn].fetch < used then used - host[turn].fetch else 0) else used
  }

  /** The room a round of a write goes by, with `room` from before: if the rest does not fit that, the host
      is told to flush, and the room is looked at again. */
  function Seen(rest: nat, room: nat, used: nat, len: nat, host: seq<HostMove>, turn: nat): (seen: nat)
    requires used <= len && room <= len
    ensures seen <= len
  {
    if rest < room then room else len - Take(Take(used, host, turn), host, turn + 1)
  }

  /** The bytes unread when the round begins to copy. */
  function Left(rest: nat, room: nat, used: nat, host: seq<HostMove>, turn: nat): (left: nat)
    ensures left <= used
  {
    var u := Take(used, host, turn);
    if rest < room then u else Take(Take(u, host, turn + 1), host, turn + 2)
  }

  /** How much of the rest goes into the room: all of it, as much as leaves the threshold free, or nothing. */
  function Chunk(rest: nat, seen: nat, tresh: nat): (n: nat)
    requires tresh > 0
    ensures n <= rest && (n == 0 || n < seen)
  {
    if rest < seen then rest else if seen <= tresh then 0 else seen - tresh
  }

  /** What a round finds after a flush: the room, and how much is still to be written. */
  datatype Look = Look(room: nat, rest: nat)
  {
    /** Some of the rest can be written. */
    predicate Enough(tresh: nat) {
      rest < room || room > tresh
    }
  }

  /** How a write ends, how many bytes it wrote, how many are unread then, and what it found after each
      flush. */
  datatype Progress = Progress(ok: bool, wrote: nat, left: nat, looks: seq<Look>)

  /** A write of `rest` bytes into a ring of `len` that has `used` unread, against a host's schedule. */
  function Progresses(rest: nat, room: nat, used: nat, len: nat, tresh: nat, host: seq<HostMove>, turn: nat):
      (o: Progress)
    requires tresh > 0 && used <= len && room <= len - used
    ensures o.wrote <= rest
    decreases rest
  {
    if rest == 0 then Progress(true, 0, used, [])
    else
      var seen, left := Seen(rest, room, used, len, host, turn), Left(rest, room, used, host, turn);
      var n, looks := Chunk(rest, seen, tresh), if rest < room then [] else [Look(seen, rest)];
      if n == 0 then Progress(false, 0, left, looks)
      else
        var o := Progresses(rest - n, seen - n, Take(left, host, turn + 3) + n, len, tresh, host, turn + 4);
        Progress(o.ok, n + o.wrote, o.left, looks + o.looks)
  }

  predicate AllEnough(looks: seq<Look>, tresh: nat) {
    forall k :: 0 <= k < |looks| ==> looks[k].Enough(tresh)
  }

  lemma EnoughJoin(a: seq<Look>, b: seq<Look>, tresh: nat)
    ensures AllEnough(a + b, tresh) <==> AllEnough(a, tresh) && AllEnough(b, tresh)
    ensures b != [] ==> a + b != [] && (a + b)[|a + b| - 1] == b[|b| - 1]
  {
    var c := a + b;
    assert forall k :: 0 <= k < |a| ==> c[k] == a[k];
    assert forall k :: 0 <= k < |b| ==> c[|a| + k] == b[k];
    assert forall k :: |a| <= k < |c| ==> c[k] == b[k - |a|];
  }

  lemma NothingLeft(room: nat, used: nat, len: nat, tresh: nat, host: seq<HostMove>, turn: nat)
    requires tresh > 0 && used <= len && room <= len - used
    ensures Progresses(0, room, used, len, tresh, host, turn) == Progress(true, 0, used, [])
  {}

  /** One round, as Progresses takes it. */
  lemma RoundOf(rest: nat, room: nat, used: nat, len: nat, tresh: nat, host: seq<HostMove>, turn: nat)
    returns (seen: nat, n: nat, looks: seq<Look>, o: Progress)
    requires tresh > 0 && used <= len && room <= len - used && rest > 0
    ensures seen == Seen(rest, room, used, len, host, turn) && n == Chunk(rest, seen, tresh)
    ensures looks == if rest < room then [] else [Look(seen, rest)]
    ensures n == 0 ==>
      Progresses(rest, room, used, len, tresh, host, turn) ==
        Progress(false, 0, Left(rest, room, used, host, turn), looks)
    ensures n > 0 ==>
      && var next := Take(Left(rest, room, used, host, turn), host, turn + 3) + n;
      && next <= len && seen - n <= len - next
      && o == Progresses(rest - n, seen - n, next, len, tresh, host, turn + 4)
      && Progresses(rest, room, used, len, tresh, host, turn) == Progress(o.ok, n + o.wrote, o.left, looks + o.looks)
  {
    hide Take;
    seen := Seen(rest, room, used, len, host, turn);
    n := Chunk(rest, seen, tresh);
    looks := if rest < room then [] else [Look(seen, rest)];
    var left := Left(rest, room, used, host, turn);
    o := if n == 0 then Progress(false, 0, 0, [])
         else Progresses(rest - n, seen - n, Take(left, host, turn + 3) + n, len, tresh, host, turn + 4);
  }

  /** It succeeds, with every byte, exactly when after each of its flushes the rest fits or more than the
      threshold is free; if not, it gives up at the last of them. */
  ghost predicate Ends(o: Progress, rest: nat, tresh: nat) {
    && (o.ok <==> AllEnough(o.looks, tresh))
    && (o.ok ==> o.wrote == rest)
    && (!o.ok ==> o.looks != [] && var last := o.looks[|o.looks| - 1];
                  !last.Enough(tresh) && last.rest == rest - o.wrote > 0)
  }

  lemma NoLooks(tresh: nat, left: nat)
    ensures Ends(Progress(true, 0, left, []), 0, tresh)
  {}

  lemma EndsWrites(o: Progress, rest: nat, tresh: nat)
    requires Ends(o, rest, tresh)
    ensures o.ok ==> o.wrote == rest
  {}

  lemma EndsLater(o: Progress, looks: seq<Look>, n: nat, rest: nat, tresh: nat)
    requires n <= rest && Ends(o, rest - n, tresh) && AllEnough(looks, tresh)
    ensures Ends(Progress(o.ok, n + o.wrote, o.left, looks + o.looks), rest, tresh)
  {
    hide AllEnough;
    EnoughJoin(looks, o.looks, tresh);
  }

  lemma EndsNow(rest: nat, room: nat, seen: nat, tresh: nat, looks: seq<Look>, left: nat)
    requires tresh > 0 && rest > 0 && (rest < room ==> seen == room)
    requires looks == if rest < room then [] else [Look(seen, rest)]
    ensures Chunk(rest, seen, tresh) > 0 ==> AllEnough(looks, tresh)
    ensures Chunk(rest, seen, tresh) == 0 ==> Ends(Progress(false, 0, left, looks), rest, tresh)
  {
    if Chunk(rest, seen, tresh) == 0 {
      assert looks[0] == Look(seen, rest) && !looks[0].Enough(tresh);
    }
  }

  /** After `done` bytes the write is where the schedule leads. */
  ghost predicate OnCourse(size: nat, used: nat, done: nat, room: nat, now: nat, len: nat, tresh: nat,
      host: seq<HostMove>, turn: nat)
    requires tresh > 0 && used <= len && now <= len && room <= len - now && done <= size
  {
    var o := Progresses(size, len - used, used, len, tresh, host, 0);
    var rest := Progresses(size - done, room, now, len, tresh, host, turn);
    o.ok == rest.ok && o.wrote == done + rest.wrote && o.left == rest.left
  }

  lemma CourseBegins(size: nat, used: nat, len: nat, tresh: nat, host: seq<HostMove>)
    requires tresh > 0 && used <= len
    ensures OnCourse(size, used, 0, len - used, used, len, tresh, host, 0)
  {}

  lemma CourseGoesOn(size: nat, used: nat, done: nat, room: nat, now: nat, len: nat, tresh: nat, host: seq<HostMove>,
      turn: nat)
    requires tresh > 0 && used <= len && now <= len && room <= len - now && done < size
    requires OnCourse(size, used, done, room, now, len, tresh, host, turn)
    ensures var o := Progresses(size, len - used, used, len, tresh, host, 0);
      var seen := Seen(size - done, room, now, len, host, turn);
      var n := Chunk(size - done, seen, tresh);
      && (n == 0 ==> !o.ok && o.wrote == done && o.left == Left(size - done, room, now, host, turn))
      && (n > 0 ==>
            var next := Take(Left(size - done, room, now, host, turn), host, turn + 3) + n;
            && next <= len && seen - n <= len - next
            && OnCourse(size, used, done + n, seen - n, next, len, tresh, host, turn + 4))
  {
    hide Progresses, Take, Left, Seen, Chunk;
    var seen, n, looks, o := RoundOf(size - done, room, now, len, tresh, host, turn);
    assert size - (done + n) == size - done - n;
  }

  lemma CourseEnds(size: nat, used: nat, room: nat, now: nat, len: nat, tresh: nat, host: seq<HostMove>, turn: nat)
    requires tresh > 0 && used <= len && now <= len && room <= len - now
    requires OnCourse(size, used, size, room, now, len, tresh, host, turn)
    ensures var o := Progresses(size, len - used, used, len, tresh, host, 0);
      o.ok && o.wrote == size && o.left == now
  {}

  /** For every write and every schedule of the host. */
  lemma {:induction false} GivesUpIff(rest: nat, room: nat, used: nat, len: nat, tresh: nat, host: seq<HostMove>,
      turn: nat)
    requires tresh > 0 && used <= len && room <= len - used
    ensures Ends(Progresses(rest, room, used, len, tresh, host, turn), rest, tresh)
    decreases rest
  {
    hide Progresses, Left, Take, Seen, AllEnough, Chunk, Ends;
    if rest == 0 {
      NothingLeft(room, used, len, tresh, host, turn);
      NoLooks(tresh, used);
    } else {
      var seen, n, looks, o := RoundOf(rest, room, used, len, tresh, host, turn);
      SeenRoom(rest, room, used, len, host, turn);
      EndsNow(rest, room, seen, tresh, looks, Left(rest, room, used, host, turn));
      if n > 0 {
        GivesUpIff(rest - n, seen - n, Take(Left(rest, room, used, host, turn), host, turn + 3) + n, len, tresh, host,
                   turn + 4);
        EndsLater(o, looks, n, rest, tresh);
      }
    }
  }

  lemma SeenRoom(rest: nat, room: nat, used: nat, len: nat, host: seq<HostMove>, turn: nat)
    requires used <= len && room <= len
    ensures rest < room ==> Seen(rest, room, used, len, host, turn) == room
  {}

  /** In each of the rounds there can be, the host takes all there is when it is told to flush. */
  ghost predicate Drains(rounds: nat, len: nat, host: seq<HostMove>, turn: nat) {
    if rounds == 0 then true
    else turn + 1 < |host| && host[turn + 1].fetch >= len && Drains(rounds - 1, len, host, turn + 4)
  }

  lemma {:induction false} DrainsOn(rounds: nat, n: nat, len: nat, host: seq<HostMove>, turn: nat)
    requires 0 < n <= rounds && Drains(rounds, len, host, turn)
    ensures Drains(rounds - n, len, host, turn + 4)
  {
    DrainsLess(rounds - 1, rounds - n, len, host, turn + 4);
  }

  lemma {:induction false} DrainsLess(rounds: nat, fewer: nat, len: nat, host: seq<HostMove>, turn: nat)
    requires fewer <= rounds && Drains(rounds, len, host, turn)
    ensures Drains(fewer, len, host, turn)
  {
    if fewer > 0 {
      DrainsLess(rounds - 1, fewer - 1, len, host, turn + 4);
    }
  }

  /** A host that empties the ring at every flush lets every write through, into any ring larger than the
      threshold. */
  lemma {:induction false} DrainedWrites(rest: nat, room: nat, used: nat, len: nat, tresh: nat, host: seq<HostMove>,
      turn: nat)
    requires tresh > 0 && used <= len && room <= len - used && tresh < len
    requires Drains(rest, len, host, turn)
    ensures var o := Progresses(rest, room, used, len, tresh, host, turn); o.ok && o.wrote == rest
    decreases rest
  {
    hide Progresses, Left, Take, Seen, Drains, Chunk;
    if rest == 0 {
      NothingLeft(room, used, len, tresh, host, turn);
    } else {
      EmptiedLook(rest, room, used, len, tresh, host, turn);
      var seen, n, looks, o := RoundOf(rest, room, used, len, tresh, host, turn);
      DrainsOn(rest, n, len, host, turn);
      DrainedWrites(rest - n, seen - n, Take(Left(rest, room, used, host, turn), host, turn + 3) + n, len, tresh, host,
                    turn + 4);
    }
  }

  lemma EmptiedLook(rest: nat, room: nat, used: nat, len: nat, tresh: nat, host: seq<HostMove>, turn: nat)
    requires used <= len && room <= len - used && rest > 0 && Drains(rest, len, host, turn) && 0 < tresh < len
    ensures Chunk(rest, Seen(rest, room, used, len, host, turn), tresh) > 0
  {}

  /** What fits strictly is written without asking the host, which has no more than its own two turns. */
  lemma FittingWrites(rest: nat, room: nat, used: nat, len: nat, tresh: nat, host: seq<HostMove>, turn: nat)
    requires tresh > 0 && used <= len && room <= len - used && rest < room
    ensures Progresses(rest, room, used, len, tresh, host, turn) ==
      Progress(true, rest, if rest == 0 then used else Take(Take(used, host, turn), host, turn + 3) + rest, [])
  {
    hide Progresses, Take;
    if rest == 0 {
      NothingLeft(room, used, len, tresh, host, turn);
    } else {
      var seen, n, looks, o := RoundOf(rest, room, used, len, tresh, host, turn);
      NothingLeft(room - n, Take(Left(rest, room, used, host, turn), host, turn + 3) + n, len, tresh, host, turn + 4);
    }
  }

  /** Against a host that never moves: what fits strictly is written; what does not is written up to the
      threshold, and then given up. */
  lemma SilentWrites(rest: nat, used: nat, len: nat, tresh: nat, turn: nat)
    requires tresh > 0 && used <= len
    ensures var o, room := Progresses(rest, len - used, used, len, tresh, [], turn), len - used;
      && o.left == used + o.wrote
      && (rest == 0 || rest < room ==> o.ok && o.wrote == rest && o.looks == [])
      && (rest > 0 && rest >= room ==> !o.ok && o.wrote == if room > tresh then room - tresh else 0)
  {
    hide Progresses;
    if rest == 0 {
      NothingLeft(len - used, used, len, tresh, [], turn);
    } else {
      var room := len - used;
      var seen, n, looks, o := RoundOf(rest, room, used, len, tresh, [], turn);
      if rest >= room > tresh {
        var seen', n', looks', o' := RoundOf(rest - n, tresh, used + n, len, tresh, [], turn + 4);
      } else if rest < room {
        NothingLeft(room - n, used + n, len, tresh, [], turn + 4);
      }
    }
  }

  class Ring {
    // struct vbva_buffer
    const data: array<byte>
    const partialWriteTresh: nat
    const records: array<nat>
    var dataOffset: nat
    var freeOffset: nat
    var recordFirstIndex: nat
    var recordFreeIndex: nat
    var hostEnabled: bool  // host_events & VBVA_F_MODE_ENABLED
    // struct vbva_buf_ctx
    var mapped: bool  // vbva != NULL
    var bufferOverflow: bool
    var record: Option<nat>
    /** Bytes written to the open record so far. */
    ghost var written: nat

    ghost predicate Offsets()
      reads this
    {
      && 0 < data.Length <= 0x8000_0000 && partialWriteTresh > 0
      && dataOffset < data.Length && freeOffset < data.Length
      && records.Length == VBVA_MAX_RECORDS
      && recordFirstIndex < VBVA_MAX_RECORDS && recordFreeIndex < VBVA_MAX_RECORDS
    }

    /** The byte queue: what the guest has published and the host has not yet taken. */
    ghost function Unread(): seq<byte>
      requires Offsets()
      reads this, data
    {
      Slice(data[..], dataOffset, Used(dataOffset, freeOffset, data.Length))
    }

    /** The record queue: the length words of the slots in use, oldest first. */
    ghost function Queue(): seq<nat>
      requires Offsets()
      reads this, records
    {
      Slice(records[..], recordFirstIndex, Used(recordFirstIndex, recordFreeIndex, VBVA_MAX_RECORDS))
    }

    /** The open record's slot holds its length and the PARTIAL bit, in 32 bits; while that length is
        below 2 GB it is the newest entry of the record queue. */
    ghost predicate Valid()
      reads this, data, records
    {
      && Offsets()
      && (forall k :: 0 <= k < VBVA_MAX_RECORDS ==> records[k] < U32)
      && (record.Some? ==>
        && record.value < VBVA_MAX_RECORDS
        && records[record.value] == ToU32(VBVA_F_RECORD_PARTIAL + written)
        && (written < VBVA_F_RECORD_PARTIAL ==>
              recordFirstIndex != recordFreeIndex && recordFreeIndex == Pos(record.value, 1, VBVA_MAX_RECORDS)))
    }

    // The host's side of the protocol; it changes only its events, data_offset and record_first_index.
    method HostTurn(host: seq<HostMove>, turn: nat) returns (ghost fetched: seq<byte>)
      requires Valid()
      modifies this`dataOffset, this`recordFirstIndex, this`hostEnabled
      ensures Valid()
      ensures fetched + Unread() == old(Unread())
      ensures Queue() == Kept(old(Queue()), host, turn)
      ensures hostEnabled == if turn < |host| then host[turn].enable else old(hostEnabled)
      ensures |Unread()| == Take(|old(Unread())|, host, turn)
      ensures turn >= |host| ==> recordFirstIndex == old(recordFirstIndex)
    {
      hide Slice;
      fetched := [];
      if turn >= |host| {
        return;
      }
      hostEnabled := host[turn].enable;
      fetched := Fetch(host[turn].fetch);
      if host[turn].retire {
        Retire();
      }
    }

    // The host takes up to n unread bytes.
    method Fetch(n: nat) returns (ghost fetched: seq<byte>)
      requires Valid()
      modifies this`dataOffset
      ensures Valid() && fetched + Unread() == old(Unread())
      ensures |Unread()| == if n < |old(Unread())| then |old(Unread())| - n else 0
      ensures Queue() == old(Queue())
    {
      hide Slice;
      var used := Used(dataOffset, freeOffset, data.Length);
      var m := if n < used then n else used;
      fetched := Unread()[..m];
      AdvanceDrops(data[..], dataOffset, used, m);
      dataOffset := Pos(dataOffset, m, data.Length);
    }

    // The host retires the oldest record if it is complete.
    method Retire()
      requires Valid()
      modifies this`recordFirstIndex
      ensures Valid() && Unread() == old(Unread()) && Queue() == Retired(old(Queue()))
    {
      hide Slice;
      var slots := Used(recordFirstIndex, recordFreeIndex, VBVA_MAX_RECORDS);
      if slots > 0 {
        SliceHead(records[..], recordFirstIndex, slots);
      }
      if slots > 0 && records[recordFirstIndex] < VBVA_F_RECORD_PARTIAL {
        AdvanceDrops(records[..], recordFirstIndex, slots, 1);
        recordFirstIndex := Pos(recordFirstIndex, 1, VBVA_MAX_RECORDS);
      }
    }

    // memcpy into the ring's data area
    method Memcpy(dst: nat, p: seq<byte>)
      requires dst + |p| <= data.Length
      modifies data
      ensures forall k :: 0 <= k < data.Length ==>
        data[k] == if dst <= k < dst + |p| then p[k - dst] else old(data[k])
    {
      var i := 0;
      while i < |p|
        invariant i <= |p|
        invariant forall k :: 0 <= k < data.Length ==>
          data[k] == if dst <= k < dst + i then p[k - dst] else old(data[k])
      {
        data[dst + i] := p[i];
        i := i + 1;
      }
    }

    // vbva_buffer_place_data_at
    method PlaceDataAt(p: seq<byte>, offset: nat)
      requires offset < data.Length <= 0x8000_0000 && |p| <= data.Length
      modifies data
      ensures Placed(old(data[..]), data[..], offset, p)
    {
      var bytesTillBoundary := data.Length - offset;
      var diff := ToS32(|p| - bytesTillBoundary);
      if diff <= 0 {
        Memcpy(offset, p);
      } else {
        Memcpy(offset, p[..bytesTillBoundary]);
        Memcpy(0, p[bytesTillBoundary..]);
      }
    }

    /** The bytes just placed at the write position become unread when free_offset moves past them. */
    lemma Publish(before: seq<byte>, p: seq<byte>, newFree: nat)
      requires Offsets() && Placed(before, data[..], freeOffset, p)
      requires |p| + Used(dataOffset, freeOffset, data.Length) < data.Length
      requires newFree == (freeOffset + |p|) % data.Length
      ensures newFree < data.Length
      ensures Slice(data[..], dataOffset, Used(dataOffset, newFree, data.Length))
           == Slice(before, dataOffset, Used(dataOffset, freeOffset, data.Length)) + p
    {
      var n := Used(dataOffset, freeOffset, data.Length);
      PosIsMod(freeOffset, |p|, data.Length);
      PlaceAppends(before, data[..], dataOffset, n, p);
      assert Used(dataOffset, newFree, data.Length) == n + |p|;
    }

    /** Placing bytes into free space changes no unread byte. */
    lemma UnreadKept(before: seq<byte>, p: seq<byte>)
      requires Offsets() && Placed(before, data[..], freeOffset, p)
      requires |p| + Used(dataOffset, freeOffset, data.Length) < data.Length
      ensures Slice(before, dataOffset, Used(dataOffset, freeOffset, data.Length)) == Unread()
    {}

    // One round of the write loop: place the chunk, move free_offset past it, count it in the record.
    // The host may act between the copy and the publication.
    method PutChunk(q: seq<byte>, host: seq<HostMove>, turn: nat) returns (ghost fetched: seq<byte>)
      requires Valid() && record.Some? && |q| + |Unread()| < data.Length
      modifies this`dataOffset, this`freeOffset, this`recordFirstIndex, this`hostEnabled, this`written, data, records
      ensures Valid() && written == old(written) + |q|
      ensures fetched + Unread() == old(Unread()) + q
      ensures |Unread()| == Take(|old(Unread())|, host, turn) + |q|
      ensures forall k | 0 <= k < VBVA_MAX_RECORDS && record != Some(k) :: records[k] == old(records[k])
    {
      hide Slice, Placed;
      ghost var before := data[..];
      PlaceDataAt(q, freeOffset);
      UnreadKept(before, q);
      ghost var mid := data[..];
      fetched := HostTurn(host, turn);
      assert data[..] == mid;
      UnreadKept(before, q);
      MoveFree(before, q);
      CountBytes(|q|);
    }

    // free_offset = (free_offset + chunk) % data_len
    method MoveFree(ghost before: seq<byte>, q: seq<byte>)
      requires Valid() && Placed(before, data[..], freeOffset, q)
      requires |q| + Used(dataOffset, freeOffset, data.Length) < data.Length
      modifies this`freeOffset
      ensures Valid()
      ensures Unread() == Slice(before, dataOffset, Used(dataOffset, old(freeOffset), data.Length)) + q
    {
      hide Slice, Placed;
      var newFree := (freeOffset + |q|) % data.Length;
      Publish(before, q, newFree);
      freeOffset := newFree;
    }

    // record->len_and_flags += chunk
    method CountBytes(n: nat)
      requires Valid() && record.Some?
      modifies this`written, records
      ensures Valid() && written == old(written) + n && Unread() == old(Unread())
      ensures forall k | 0 <= k < VBVA_MAX_RECORDS && record != Some(k) :: records[k] == old(records[k])
    {
      hide Slice, Used;
      CountMod(VBVA_F_RECORD_PARTIAL + written, n);
      records[record.value] := ToU32(records[record.value] + n);
      written := written + n;
    }

    // How much of the rest to write now: all of it, as much as leaves the threshold free, or nothing.
    method ChunkSize(rest: nat, room: nat, host: seq<HostMove>, turn: nat)
      returns (chunk: nat, available: nat, ghost fetched: seq<byte>)
      requires Valid() && rest > 0 && room <= data.Length - |Unread()|
      modifies this`dataOffset, this`recordFirstIndex, this`hostEnabled
      ensures Valid() && fetched + Unread() == old(Unread()) && available <= data.Length - |Unread()|
      ensures available == Seen(rest, room, |old(Unread())|, data.Length, host, turn)
      ensures |Unread()| == Left(rest, room, |old(Unread())|, host, turn)
      ensures chunk == Chunk(rest, available, partialWriteTresh)
    {
      hide Slice, Used, Placed, BufferAvailable, Take, Kept;
      available := room;
      fetched := HostTurn(host, turn);
      ghost var got := [];
      chunk := rest;
      if chunk >= available {
        available, got := FlushAndLook(host, turn + 1);
      }
      fetched := fetched + got;
      assert fetched + Unread() == old(Unread());
      if chunk >= available {
        chunk := if available <= partialWriteTresh then 0 else available - partialWriteTresh;
      }
    }

    // The body of the write loop: n bytes of `rest` are written, or none and the overflow flag is set.
    method WriteRound(rest: seq<byte>, room: nat, host: seq<HostMove>, turn: nat)
      returns (n: nat, available: nat, ghost fetched: seq<byte>)
      requires Valid() && record.Some? && |rest| > 0 && room <= data.Length - |Unread()| && !bufferOverflow
      modifies this`dataOffset, this`freeOffset, this`recordFirstIndex, this`hostEnabled, this`bufferOverflow
      modifies this`written, data, records
      ensures Valid() && (n == 0 <==> bufferOverflow)
      ensures n == Chunk(|rest|, Seen(|rest|, room, |old(Unread())|, data.Length, host, turn), partialWriteTresh)
      ensures fetched + Unread() == old(Unread()) + rest[..n] && available <= data.Length - |Unread()|
      ensures n > 0 ==>
        && available == Seen(|rest|, room, |old(Unread())|, data.Length, host, turn) - n
        && |Unread()| == Take(Left(|rest|, room, |old(Unread())|, host, turn), host, turn + 3) + n
      ensures n == 0 ==> |Unread()| == Left(|rest|, room, |old(Unread())|, host, turn)
      ensures written == old(written) + n
      ensures forall k | 0 <= k < VBVA_MAX_RECORDS && record != Some(k) :: records[k] == old(records[k])
    {
      hide Slice, Used, Placed, BufferAvailable, Take, Seen, Left, Chunk;
      n, available, fetched := ChunkSize(|rest|, room, host, turn);
      if n == 0 {
        bufferOverflow := true;
        return;
      }
      ghost var queue := Unread();
      ghost var got := PutChunk(rest[..n], host, turn + 3);
      Chain(fetched, got, Unread(), queue, rest[..n]);
      fetched := fetched + got;
      available := available - n;
    }

    // The write loop of vbva_write, on a writable ring.
    method WriteAll(p: seq<byte>, host: seq<HostMove>) returns (ok: bool, ghost wrote: nat, ghost fetched: seq<byte>)
      requires Valid() && record.Some? && !bufferOverflow
      modifies this`dataOffset, this`freeOffset, this`recordFirstIndex, this`hostEnabled, this`bufferOverflow,
          this`written,
        data, records
      ensures Valid() && wrote <= |p| && ok == !bufferOverflow
      ensures fetched + Unread() == old(Unread()) + p[..wrote]
      ensures written == old(written) + wrote
      ensures forall k | 0 <= k < VBVA_MAX_RECORDS && record != Some(k) :: records[k] == old(records[k])
      ensures
        var used := |old(Unread())|;
        var o := Progresses(|p|, data.Length - used, used, data.Length, partialWriteTresh, host, 0);
        ok == o.ok && wrote == o.wrote && |Unread()| == o.left
    {
      hide Slice, Used, Placed, BufferAvailable, Take, Seen, Left, Chunk, Progresses, OnCourse, Kept;
      wrote, fetched := 0, [];
      var turn, done := 0, 0;
      var available := BufferAvailable(dataOffset, freeOffset, data.Length);
      AvailableIsFree(dataOffset, freeOffset, data.Length);
      CourseBegins(|p|, |Unread()|, data.Length, partialWriteTresh, host);
      while done < |p|
        invariant Valid() && done == wrote <= |p| && !bufferOverflow
        invariant 0 <= available <= data.Length - |Unread()|
        invariant fetched + Unread() == old(Unread()) + p[..done]
        invariant written == old(written) + done
        invariant
          OnCourse(|p|, |old(Unread())|, done, available, |Unread()|, data.Length, partialWriteTresh, host, turn)
        invariant forall k | 0 <= k < VBVA_MAX_RECORDS && record != Some(k) :: records[k] == old(records[k])
      {
        var n;
        ghost var got, queue := [], Unread();
        CourseGoesOn(|p|, |old(Unread())|, done, available, |queue|, data.Length, partialWriteTresh, host, turn);
        n, available, got := WriteRound(p[done..], available, host, turn);
        WriteChain(old(Unread()), p, done, n, fetched, got, queue, Unread());
        fetched := fetched + got;
        turn := turn + 4;
        done := done + n;
        wrote := done;
        if n == 0 {
          ok := false;
          return;
        }
      }
      CourseEnds(|p|, |old(Unread())|, available, |Unread()|, data.Length, partialWriteTresh, host, turn);
      ok := true;
    }

    // vbva_write. The host may act at every point where the C code looks at shared state; `fetched`
    // is what it took during the call and `wrote` how many bytes of p reached the ring.
    method Write(p: seq<byte>, host: seq<HostMove>) returns (ok: bool, ghost wrote: nat, ghost fetched: seq<byte>)
      requires Valid()
      modifies this`dataOffset, this`freeOffset, this`recordFirstIndex, this`hostEnabled, this`bufferOverflow,
          this`written,
        data, records
      ensures Valid() && wrote <= |p|
      // The ring is a FIFO byte queue, whatever the host does and however far the write gets.
      ensures fetched + Unread() == old(Unread()) + p[..wrote]
      ensures ok ==> wrote == |p|
      // The record's length word counts exactly the bytes written, in 32 bits (see Valid).
      ensures written == old(written) + wrote
      ensures forall k | 0 <= k < VBVA_MAX_RECORDS && record != Some(k) :: records[k] == old(records[k])
      // It fails at once when there is nothing to write to, and otherwise only by overflowing.
      ensures !old(Writable()) ==> !ok && wrote == 0 && bufferOverflow == old(bufferOverflow) && fetched == []
      ensures old(Writable()) ==> ok == !bufferOverflow
      ensures old(Writable()) && |p| < data.Length - |old(Unread())| ==> ok
      // How far it gets against each schedule of the host; GivesUpIff, DrainedWrites and SilentWrites say
      // what that comes to.
      ensures old(Writable()) ==>
        var used := |old(Unread())|;
        var o := Progresses(|p|, data.Length - used, used, data.Length, partialWriteTresh, host, 0);
        ok == o.ok && wrote == o.wrote && |Unread()| == o.left
    {
      hide Slice, Used, Placed, BufferAvailable, Take, Seen, Left, Chunk, Progresses, OnCourse, Kept, Ends;
      if !mapped || bufferOverflow || record == None || records[record.value] < VBVA_F_RECORD_PARTIAL {
        ok, wrote, fetched := false, 0, [];
        return;
      }
      ghost var used := |Unread()|;
      GivesUpIff(|p|, data.Length - used, used, data.Length, partialWriteTresh, host, 0);
      if |p| < data.Length - used {
        FittingWrites(|p|, data.Length - used, used, data.Length, partialWriteTresh, host, 0);
      }
      EndsWrites(Progresses(|p|, data.Length - used, used, data.Length, partialWriteTresh, host, 0), |p|,
                 partialWriteTresh);
      ok, wrote, fetched := WriteAll(p, host);
    }

    ghost predicate Writable()
      requires Valid()
      reads this, data, records
    {
      mapped && !bufferOverflow && record.Some? && records[record.value] >= VBVA_F_RECORD_PARTIAL
    }

    // vbva_buffer_flush and the second look at the room, with the host free to act around it: by the
    // time the value is used it may be stale, but only on the safe side.
    method FlushAndLook(host: seq<HostMove>, turn: nat) returns (available: nat, ghost fetched: seq<byte>)
      requires Valid()
      modifies this`dataOffset, this`recordFirstIndex, this`hostEnabled
      ensures Valid() && fetched + Unread() == old(Unread())
      ensures available <= data.Length - |Unread()|
      ensures available == data.Length - Take(|old(Unread())|, host, turn)
      ensures |Unread()| == Take(Take(|old(Unread())|, host, turn), host, turn + 1)
    {
      hide Slice, Used, Placed, BufferAvailable, Take, Kept;
      fetched := HostTurn(host, turn);
      available := BufferAvailable(dataOffset, freeOffset, data.Length);
      AvailableIsFree(dataOffset, freeOffset, data.Length);
      ghost var got := HostTurn(host, turn + 1);
      fetched := fetched + got;
    }

    // vbva_enable, once the host has accepted the buffer: an empty ring
    constructor (data: array<byte>, records: array<nat>)
      requires 0 < data.Length <= 0x8000_0000 && records.Length == VBVA_MAX_RECORDS
      requires forall k :: 0 <= k < VBVA_MAX_RECORDS ==> records[k] == 0
      ensures Valid() && this.data == data && this.records == records && partialWriteTresh == 256
      ensures Unread() == [] && Queue() == [] && mapped && record == None && !bufferOverflow
    {
      this.data, this.records, this.partialWriteTresh := data, records, 256;
      this.dataOffset, this.freeOffset, this.recordFirstIndex, this.recordFreeIndex := 0, 0, 0, 0;
      this.hostEnabled, this.mapped, this.bufferOverflow := false, true, false;
      this.record, this.written := None, 0;
    }

    // vbva_buffer_begin_update: a slot that still holds an unretired record is never taken. With all slots
    // in use it flushes, and takes one only if the host retires a record then.
    method BeginUpdate(host: seq<HostMove>) returns (ok: bool, ghost fetched: seq<byte>)
      requires Valid()
      modifies this`dataOffset, this`recordFirstIndex, this`recordFreeIndex, this`hostEnabled, this`record,
          this`written,
        records
      ensures Valid() && fetched + Unread() == old(Unread())
      ensures ok ==> record == Some(old(recordFreeIndex)) && written == 0
      ensures !ok ==> record == old(record) && written == old(written)
      ensures var open, full := mapped && old(hostEnabled), |old(Queue())| == VBVA_MAX_RECORDS - 1;
        var q := if open && full then Kept(old(Queue()), host, 0) else old(Queue());
        && (ok <==> open && |q| < VBVA_MAX_RECORDS - 1)
        && Queue() == (if ok then q + [VBVA_F_RECORD_PARTIAL] else q)
        && (!(open && full) ==> fetched == [])
    {
      hide Slice;
      fetched := [];
      if !mapped || !hostEnabled {
        return false, fetched;
      }
      var next := (recordFreeIndex + 1) % VBVA_MAX_RECORDS;
      if next == recordFirstIndex {
        fetched := HostTurn(host, 0);  // vbva_buffer_flush
      }
      if next == recordFirstIndex {
        return false, fetched;
      }
      OpenRecord(next);
      return true, fetched;
    }

    // The next slot becomes a record being written.
    method OpenRecord(next: nat)
      requires Valid() && next == (recordFreeIndex + 1) % VBVA_MAX_RECORDS != recordFirstIndex
      modifies this`recordFreeIndex, this`record, this`written, records
      ensures Valid() && Unread() == old(Unread()) && record == Some(old(recordFreeIndex)) && written == 0
      ensures Queue() == old(Queue()) + [VBVA_F_RECORD_PARTIAL]
    {
      hide Slice, Placed;
      ghost var before, q := records[..], Queue();
      records[recordFreeIndex] := VBVA_F_RECORD_PARTIAL;
      PlacedOne(before, records[..], recordFreeIndex, VBVA_F_RECORD_PARTIAL);
      PlaceAppends(before, records[..], recordFirstIndex, |q|, [VBVA_F_RECORD_PARTIAL]);
      record, written := Some(recordFreeIndex), 0;
      recordFreeIndex := next;
    }

    // vbva_buffer_end_update. The caller must have an open record: the C code dereferences it.
    // The length the host will see is the number of bytes written exactly when that is below 2 GB.
    method EndUpdate()
      requires Valid() && record.Some?
      modifies this`record, this`bufferOverflow, records
      ensures Valid() && record == None && !bufferOverflow && Unread() == old(Unread())
      ensures records[old(record.value)] == written <==> written < VBVA_F_RECORD_PARTIAL
      ensures forall k | 0 <= k < VBVA_MAX_RECORDS && old(record) != Some(k) :: records[k] == old(records[k])
      ensures written < VBVA_F_RECORD_PARTIAL ==>
        |old(Queue())| > 0 && Queue() == old(Queue())[..|old(Queue())| - 1] + [written]
    {
      hide Slice, Placed;
      ghost var before, slot := records[..], record.value;
      records[record.value] := records[record.value] % VBVA_F_RECORD_PARTIAL;
      if written < VBVA_F_RECORD_PARTIAL {
        ghost var n := Used(recordFirstIndex, recordFreeIndex, VBVA_MAX_RECORDS);
        PlacedOne(before, records[..], slot, written);
        PlaceAppends(before, records[..], recordFirstIndex, n - 1, [written]);
        AdvanceDrops(before, recordFirstIndex, n, n - 1);
      }
      bufferOverflow, record := false, None;
    }
  }

  // Write 1 GB to an empty ring of 2 GB, then let the host fetch everything.
  method SendGigabyte(ring: Ring)
    requires ring.Valid() && ring.Writable() && ring.Unread() == [] && ring.data.Length == 0x8000_0000
    requires ring.written < 0x8000_0000
    modifies ring`dataOffset, ring`freeOffset, ring`recordFirstIndex, ring`hostEnabled, ring`bufferOverflow,
        ring`written
    modifies ring.data, ring.records
    ensures ring.Valid() && ring.Unread() == [] && ring.written == old(ring.written) + 0x4000_0000
    ensures old(ring.written) < 0x4000_0000 ==> ring.Writable()
  {
    hide Slice, Placed, Used;
    var ok;
    ghost var wrote, got;
    ok, wrote, got := ring.Write(seq(0x4000_0000, _ => 0 as byte), []);
    got := ring.HostTurn([HostMove(true, 0x8000_0000, false)], 0);
  }

  /** A record of 2 GB: two writes of 1 GB, the host fetching between them, go into one record, and the
      length the host is shown is not what was written. */
  method LongRecord() returns (published: nat, ghost sent: nat)
    ensures sent == 0x8000_0000 && published != sent
  {
    hide Slice, Placed, Used;
    var ring := EnabledRing();
    var ok;
    ghost var got;
    ok, got := ring.BeginUpdate([]);
    assert ring.Unread() == [];
    published := SendTwo(ring);
    sent := ring.written;
  }

  // A ring of 2 GB that the host has enabled.
  method EnabledRing() returns (ring: Ring)
    ensures fresh(ring) && fresh(ring.data) && fresh(ring.records) && ring.Valid()
    ensures ring.Unread() == [] && ring.Queue() == [] && ring.mapped && ring.hostEnabled && ring.record == None
    ensures ring.data.Length == 0x8000_0000 && !ring.bufferOverflow
  {
    hide Slice, Placed, Used;
    var data, records := new byte[0x8000_0000](_ => 0), new nat[VBVA_MAX_RECORDS](_ => 0);
    ring := new Ring(data, records);
    ghost var got := ring.HostTurn([HostMove(true, 0, false)], 0);
  }

  method SendTwo(ring: Ring) returns (published: nat)
    requires ring.Valid() && ring.Writable() && ring.Unread() == [] && ring.data.Length == 0x8000_0000
    requires ring.written == 0
    modifies ring, ring.data, ring.records
    ensures ring.written == 0x8000_0000 && published != ring.written
    ensures ring.record == None && published == ring.records[old(ring.record.value)]
  {
    hide Slice, Placed, Used;
    var slot := ring.record.value;
    SendGigabyte(ring);
    SendGigabyte(ring);
    ring.EndUpdate();
    published := ring.records[slot];
  }

  lemma PlacedOne<T>(before: seq<T>, after: seq<T>, at: nat, v: T)
    requires at < |before| && after == before[at := v]
    ensures Placed(before, after, at, [v])
  {}
}
