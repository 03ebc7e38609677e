/** The file system's descriptor table: open streams indexed by their fd.
    A slot is free when it holds nothing (the source stores `null` or
    never assigned it); descriptors run from 0 to 4096 inclusive. */
module FsStreams {
  import opened Base
  import FsNames

  /** The largest descriptor FS.nextfd hands out. */
  const MaxFd: int := 4096

  /** An open file (FS.FSStream): the node, the path it was opened by, the
      open flags and position, and its descriptor while it is open. */
  class FsStream {
    const node: FsNames.FsNode?
    const path: JsString
    var flags: nat
    var position: int
    var fd: Option<int>

    constructor (node: FsNames.FsNode?, path: JsString, flags: nat, position: int)
      ensures this.node == node && this.path == path && this.flags == flags
      ensures this.position == position && fd == None
    {
      this.node := node;
      this.path := path;
      this.flags := flags;
      this.position := position;
      fd := None;
    }
  }

  /** The lowest descriptor from `start` up to MaxFd that is not in use. */
  function LowestFree(used: set<int>, start: int): (r: Option<int>)
    decreases MaxFd + 1 - start
    ensures r.Some? ==> start <= r.value <= MaxFd && r.value !in used
    ensures r.Some? ==> forall j :: start <= j < r.value ==> j in used
    ensures r.None? ==> forall j :: start <= j <= MaxFd ==> j in used
  {
    if start > MaxFd then None
    else if start !in used then Some(start)
    else LowestFree(used, start + 1)
  }

  /** Freeing a descriptor at or above `start` makes the next search stop
      there or earlier: a closed descriptor is handed out again. */
  lemma FreedIsReused(used: set<int>, start: int, k: int)
    requires start <= k <= MaxFd
    ensures LowestFree(used - {k}, start).Some?
    ensures LowestFree(used - {k}, start).value <= k
  {
  }

  /** The search answers the same for any `used` that agrees on [start, MaxFd]. */
  lemma {:induction false} LowestFreeLocal(used: set<int>, other: set<int>, start: int)
    requires forall j :: start <= j <= MaxFd ==> (j in used <==> j in other)
    ensures LowestFree(used, start) == LowestFree(other, start)
    decreases MaxFd + 1 - start
  {
    if start <= MaxFd && start in used {
      LowestFreeLocal(used, other, start + 1);
    }
  }

  /** FS.streams with the streams it has handed out (`streams` is ghost). */
  class StreamTable {
    var slots: map<int, FsStream>
    ghost var streams: set<FsStream>

    /** A slot holds a stream whose descriptor is that slot; a stream made
        here that has a descriptor is the one in that slot. */
    ghost predicate Valid()
      reads this, streams
    {
      (forall k :: k in slots ==> slots[k] in streams && slots[k].fd == Some(k)) &&
      (forall s :: s in streams && s.fd.Some? ==> s.fd.value in slots && slots[s.fd.value] == s)
    }

    constructor ()
      ensures Valid() && slots == map[] && streams == {}
    {
      slots := map[];
      streams := {};
    }

    /** FS.nextfd: the first free slot from `start` (0 when absent) up to
        4096, or EMFILE. */
    method NextFd(start: Option<int>) returns (r: Result<int, int>)
      ensures var from := if start.Some? then start.value else 0;
        match LowestFree(slots.Keys, from)
        case Some(k) => r == Ok(k)
        case None => r == Err(EMFILE)
    {
      var a := if start.Some? then start.value else 0;
      while a <= MaxFd
        invariant LowestFree(slots.Keys, if start.Some? then start.value else 0) == LowestFree(slots.Keys, a)
        decreases MaxFd + 1 - a
      {
        if a !in slots {
          return Ok(a);
        }
        a := a + 1;
      }
      return Err(EMFILE);
    }

    /** FS.createStream: a new stream in the lowest free slot from `start`;
        nothing is registered when the table is full. */
    method CreateStream(node: FsNames.FsNode?, path: JsString, flags: nat, position: int, start: Option<int>)
      returns (r: Result<FsStream, int>)
      requires Valid()
      modifies this
      ensures Valid()
      ensures var from := if start.Some? then start.value else 0;
        match LowestFree(old(slots).Keys, from)
        case Some(k) =>
          r.Ok? && fresh(r.value) && r.value.fd == Some(k) && slots == old(slots)[k := r.value] &&
          r.value.node == node && r.value.path == path && r.value.flags == flags && r.value.position == position
        case None => r == Err(EMFILE) && slots == old(slots)
    {
      var s := new FsStream(node, path, flags, position);
      var fd := NextFd(start);
      if fd.Err? {
        return Err(fd.error);
      }
      s.fd := Some(fd.value);
      slots := slots[fd.value := s];
      streams := streams + {s};
      return Ok(s);
    }

    /** FS.close: EBADF for a stream that is already closed; otherwise the
        slot is freed and the stream loses its descriptor. */
    method Close(s: FsStream) returns (r: Result<(), int>)
      requires Valid() && s in streams
      modifies this, s
      ensures Valid() && streams == old(streams)
      ensures old(s.fd).None? ==> r == Err(EBADF) && slots == old(slots) && s.fd == None
      ensures old(s.fd).Some? ==> r == Ok(()) && slots == old(slots) - {old(s.fd).value} && s.fd == None
    {
      if s.fd.None? {
        return Err(EBADF);
      }
      slots := slots - {s.fd.value};
      s.fd := None;
      return Ok(());
    }
  }
}
