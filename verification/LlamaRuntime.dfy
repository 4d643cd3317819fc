/** What the dumpers acquire and release, and the files they write. */
module LlamaRuntime {
  /** The exit code for a checkpoint llama.cpp cannot load. */
  const EXIT_MODEL_UNSUPPORTED: nat := 3

  datatype Kind = Memory | Model | Context | Batch | File

  /** A handle as the C code holds it; `Null` is a failed acquisition. */
  datatype Handle = Null | Handle(id: nat)

  /** Acquiring and then releasing leaves what was live. */
  lemma PutTake(m: map<nat, Kind>, id: nat, kind: Kind)
    requires id !in m
    ensures m[id := kind] - {id} == m
  {
  }

  /** Everything acquired so far, by number: what is live and the log of
      releases. Releasing demands a live handle of the right kind, and a model
      outlives the contexts made from it, so no run of a client can release
      twice, through the wrong function, or in the wrong order. */
  class Runtime {
    var given: nat
    var live: map<nat, Kind>
    var released: seq<nat>

    ghost predicate Valid()
      reads this
    {
      && (forall id :: id in live ==> id < given && id !in released)
      && (forall id :: 0 <= id < given ==> id in live || id in released)
      && (forall k :: 0 <= k < |released| ==> released[k] < given)
      && (forall k, l :: 0 <= k < l < |released| ==> released[k] != released[l])
    }

    constructor ()
      ensures Valid() && live == map[] && released == [] && given == 0
    {
      given, live, released := 0, map[], [];
    }

    /** An acquisition that may fail. */
    method Acquire(kind: Kind, ok: bool) returns (h: Handle)
      requires Valid()
      modifies this
      ensures Valid() && released == old(released)
      ensures if ok then h == Handle(old(given)) && live == old(live)[old(given) := kind] && given == old(given) + 1
              else h == Null && live == old(live) && given == old(given)
      ensures old(given) !in old(live)
    {
      if !ok {
        return Null;
      }
      h := Handle(given);
      live := live[given := kind];
      given := given + 1;
    }

    method Release(h: Handle, kind: Kind)
      requires Valid() && h.Handle? && h.id in live && live[h.id] == kind
      requires kind.Model? ==> forall id :: id in live ==> !live[id].Context?
      modifies this
      ensures Valid() && given == old(given) && live == old(live) - {h.id} && released == old(released) + [h.id]
    {
      released := released + [h.id];
      live := live - {h.id};
    }

    /** C's `free`: releasing NULL is a no-op. */
    method Free(h: Handle)
      requires Valid() && (h.Handle? ==> h.id in live && live[h.id] == Memory)
      modifies this
      ensures Valid() && given == old(given)
      ensures live == (if h.Null? then old(live) else old(live) - {h.id})
    {
      if h.Handle? {
        Release(h, Memory);
      }
    }
  }

  /** Once nothing is live, every handle ever given out was released exactly
      once, and nothing else was. */
  lemma AllReleasedExactlyOnce(rt: Runtime)
    requires rt.Valid() && rt.live == map[]
    ensures forall id: nat :: multiset(rt.released)[id] == (if id < rt.given then 1 else 0)
  {
    forall id: nat
      ensures multiset(rt.released)[id] == (if id < rt.given then 1 else 0)
    {
      CountOnce(rt.released, id);
    }
  }

  lemma {:induction false} CountOnce(s: seq<nat>, x: nat)
    requires forall k, l :: 0 <= k < l < |s| ==> s[k] != s[l]
    ensures multiset(s)[x] == (if x in s then 1 else 0)
    decreases |s|
  {
    if s != [] {
      var init, last := s[..|s| - 1], s[|s| - 1];
      assert s == init + [last];
      CountOnce(init, x);
    }
  }

  function Take<T>(s: seq<T>, n: nat): (r: seq<T>) {
    if |s| <= n then s else s[..n]
  }

  lemma TakeAppend<T>(s: seq<T>, t: seq<T>, n: nat)
    ensures Take(Take(s, n) + t, n) == Take(s + t, n)
  {
  }

  /** An output file on a device with room for so many cells. The writers
      ignore what `fwrite` and `fclose` return, so a full device silently
      drops what does not fit. */
  class OutFile<T> {
    var content: seq<T>
    const room: nat

    constructor (room: nat)
      ensures this.room == room && content == []
    {
      this.room, content := room, [];
    }

    /** `fopen(path, "wb")` truncates. */
    method Truncate()
      modifies this
      ensures content == []
    {
      content := [];
    }

    /** `fwrite`, its result ignored. */
    method Write(cells: seq<T>)
      modifies this
      ensures content == Take(old(content) + cells, room)
    {
      content := Take(content + cells, room);
    }
  }
}
