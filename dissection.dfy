/**
 * Dissection: the result of running a dissector on a byte buffer, and the
 * dissector tables that hold the dissectors registered for a key, ordered
 * by priority. Dissecting through a table tries its dissectors from the
 * highest priority down and takes the first one that succeeds; a hard
 * failure stops the search at once.
 */
module Dissection {
  import opened Bits
  import opened Wrappers
  import D = Decode

  type i32 = x: int | -0x8000_0000 <= x < 0x8000_0000

  /** `DissectError` is the byte decoder's error type. */
  type DissectError = D.DecodeError

  /**
   * `DResult`: success with the bytes left over, a recoverable error, an
   * unrecoverable failure, or a request for more input.
   */
  datatype DResult<+T> = Parsed(rest: seq<u8>, value: T) | Error(err: DissectError) | Failure(err: DissectError) | Incomplete(needed: nat)

  /** A registered dissector; the session and parent it is also given are left out. */
  type Dissector<!P> = seq<u8> -> DResult<P>

  // ---------------------------------------------------------------------
  // Priority order
  // ---------------------------------------------------------------------

  /** Higher priorities come first. */
  predicate NonIncreasing(prios: seq<i32>)
  {
    forall i, j :: 0 <= i < j < |prios| ==> prios[i] >= prios[j]
  }

  /** A place where `p` can go: everything before it is at least `p`, everything after at most `p`. */
  predicate SlotFor(prios: seq<i32>, pos: nat, p: i32)
  {
    pos <= |prios| &&
    (forall k :: 0 <= k < pos ==> prios[k] >= p) &&
    (forall k :: pos <= k < |prios| ==> prios[k] <= p)
  }

  function Insert<T>(s: seq<T>, pos: nat, x: T): (r: seq<T>)
    requires pos <= |s|
    ensures |r| == |s| + 1 && r[pos] == x
    ensures forall k :: 0 <= k < pos ==> r[k] == s[k]
    ensures forall k :: pos < k < |r| ==> r[k] == s[k - 1]
  {
    s[..pos] + [x] + s[pos..]
  }

  /** Inserting a priority at one of its slots keeps the list ordered and adds exactly that priority. */
  lemma InsertKeepsOrder(prios: seq<i32>, pos: nat, p: i32)
    requires NonIncreasing(prios) && SlotFor(prios, pos, p)
    ensures NonIncreasing(Insert(prios, pos, p))
    ensures multiset(Insert(prios, pos, p)) == multiset(prios) + multiset{p}
  {
    var r := Insert(prios, pos, p);
    forall i, j | 0 <= i < j < |r|
      ensures r[i] >= r[j]
    {
      if i < pos && j > pos {
        assert r[i] == prios[i] && r[j] == prios[j - 1];
      } else if i > pos {
        assert r[i] == prios[i - 1] && r[j] == prios[j - 1];
      }
    }
    assert prios == prios[..pos] + prios[pos..];
  }

  /**
   * `binary_search_by(|item| priority.cmp(item)).unwrap_or_else(|e| e)`:
   * the index of an equal priority, or where `p` would go. Among equal
   * priorities the standard library is free to pick any; the contract says
   * only what every choice satisfies.
   */
  method SearchPos(prios: seq<i32>, p: i32) returns (pos: nat)
    requires NonIncreasing(prios)
    ensures SlotFor(prios, pos, p)
  {
    var lo, hi := 0, |prios|;
    while lo < hi
      invariant 0 <= lo <= hi <= |prios|
      invariant forall k :: 0 <= k < lo ==> prios[k] > p
      invariant forall k :: hi <= k < |prios| ==> prios[k] < p
    {
      var mid := lo + (hi - lo) / 2;
      if prios[mid] > p {
        lo := mid + 1;
      } else if prios[mid] < p {
        hi := mid;
      } else {
        return mid;
      }
    }
    return lo;
  }

  /** One table's pair of vectors: priorities and dissectors, aligned by index. */
  datatype Entry<!P> = Entry(priorities: seq<i32>, dissectors: seq<Dissector<P>>)

  predicate ValidEntry<P>(e: Entry<P>)
  {
    |e.priorities| == |e.dissectors| && NonIncreasing(e.priorities)
  }

  /** The new entry after a dissector is inserted at a slot for its priority. */
  ghost predicate LoadedAt<P>(old_: Entry<P>, e: Entry<P>, p: i32, d: Dissector<P>)
  {
    exists pos: nat ::
      SlotFor(old_.priorities, pos, p) && pos <= |old_.dissectors| &&
      e.priorities == Insert(old_.priorities, pos, p) && e.dissectors == Insert(old_.dissectors, pos, d)
  }

  /** The body shared by both `load`s: insert the priority and the dissector at the same index. */
  method InsertSorted<P>(e: Entry<P>, p: i32, d: Dissector<P>) returns (r: Entry<P>)
    requires ValidEntry(e)
    ensures ValidEntry(r) && LoadedAt(e, r, p, d)
    ensures multiset(r.priorities) == multiset(e.priorities) + multiset{p}
  {
    var pos := SearchPos(e.priorities, p);
    InsertKeepsOrder(e.priorities, pos, p);
    r := Entry(Insert(e.priorities, pos, p), Insert(e.dissectors, pos, d));
  }

  /** When `p` ties with no loaded priority, its slot is unique, and so is the entry after loading. */
  lemma LoadedBetween<P>(old_: Entry<P>, e: Entry<P>, p: i32, d: Dissector<P>, i: nat)
    requires LoadedAt(old_, e, p, d)
    requires i <= |old_.priorities| && i <= |old_.dissectors|
    requires forall k :: 0 <= k < i ==> old_.priorities[k] > p
    requires forall k :: i <= k < |old_.priorities| ==> old_.priorities[k] < p
    ensures e.priorities == Insert(old_.priorities, i, p) && e.dissectors == Insert(old_.dissectors, i, d)
  {
    var pos: nat :| SlotFor(old_.priorities, pos, p) && pos <= |old_.dissectors| &&
      e.priorities == Insert(old_.priorities, pos, p) && e.dissectors == Insert(old_.dissectors, pos, d);
  }

  lemma InsertIntoEmpty<T>(x: T)
    ensures Insert([], 0, x) == [x]
  {
  }

  lemma LoadedFirst<P>(e1: Entry<P>, d0: Dissector<P>)
    requires LoadedAt(Entry([], []), e1, 0, d0)
    ensures e1.priorities == [0] && e1.dissectors == [d0]
  {
    InsertIntoEmpty(0 as i32);
    InsertIntoEmpty(d0);
    LoadedBetween(Entry([], []), e1, 0, d0, 0);
  }

  lemma LoadedSecond<P>(e1: Entry<P>, e2: Entry<P>, d0: Dissector<P>, d1: Dissector<P>)
    requires e1.priorities == [0] && e1.dissectors == [d0]
    requires LoadedAt(e1, e2, 10, d1)
    ensures e2.priorities == [10, 0] && e2.dissectors == [d1, d0]
  {
    LoadedBetween(e1, e2, 10, d1, 0);
    assert Insert([0], 0, 10) == [10, 0];
    assert Insert([d0], 0, d1) == [d1, d0];
  }

  lemma LoadedThird<P>(e2: Entry<P>, e3: Entry<P>, d0: Dissector<P>, d1: Dissector<P>, d2: Dissector<P>)
    requires e2.priorities == [10, 0] && e2.dissectors == [d1, d0]
    requires LoadedAt(e2, e3, 5, d2)
    ensures e3.priorities == [10, 5, 0] && e3.dissectors == [d1, d2, d0]
  {
    LoadedBetween(e2, e3, 5, d2, 1);
    assert Insert([10, 0], 1, 5) == [10, 5, 0];
    assert Insert([d1, d0], 1, d2) == [d1, d2, d0];
  }

  /** Loading priorities 0, 10 and 5 in that order leaves them highest first, dissectors alongside. */
  lemma LoadOrderExample<P>(e1: Entry<P>, e2: Entry<P>, e3: Entry<P>, d0: Dissector<P>, d1: Dissector<P>, d2: Dissector<P>)
    requires LoadedAt(Entry([], []), e1, 0, d0)
    requires LoadedAt(e1, e2, 10, d1)
    requires LoadedAt(e2, e3, 5, d2)
    ensures e3.priorities == [10, 5, 0] && e3.dissectors == [d1, d2, d0]
  {
    LoadedFirst(e1, d0);
    LoadedSecond(e1, e2, d0, d1);
    LoadedThird(e2, e3, d0, d1, d2);
  }

  // ---------------------------------------------------------------------
  // The two table shapes `dissector_table!` generates
  // ---------------------------------------------------------------------

  /** A table without a key: one list for every lookup. */
  class Table<!P> {
    var entry: Entry<P>

    ghost predicate Valid()
      reads this
    {
      ValidEntry(entry)
    }

    constructor ()
      ensures Valid() && entry == Entry([], [])
    {
      entry := Entry([], []);
    }

    method Load(p: i32, d: Dissector<P>)
      requires Valid()
      modifies this
      ensures Valid() && LoadedAt(old(entry), entry, p, d)
    {
      entry := InsertSorted(entry, p, d);
    }

    /** `find`: always the whole list. */
    function Find(): (r: Option<seq<Dissector<P>>>)
      requires Valid()
      reads this
      ensures r.Some? && |r.value| == |entry.priorities| && r.value == entry.dissectors
    {
      Some(entry.dissectors)
    }
  }

  /** A table with a key: one entry per key, created on the first `load` for that key. */
  class KeyedTable<K(==), !P> {
    var entries: map<K, Entry<P>>

    ghost predicate Valid()
      reads this
    {
      forall k :: k in entries ==> ValidEntry(entries[k])
    }

    constructor ()
      ensures Valid() && entries == map[]
    {
      entries := map[];
    }

    method Load(key: K, p: i32, d: Dissector<P>)
      requires Valid()
      modifies this
      ensures Valid() && entries.Keys == old(entries.Keys) + {key}
      ensures LoadedAt(if key in old(entries) then old(entries)[key] else Entry([], []), entries[key], p, d)
      ensures forall k :: k in old(entries) && k != key ==> entries[k] == old(entries)[k]
    {
      var e := if key in entries then entries[key] else Entry([], []);
      var e' := InsertSorted(e, p, d);
      entries := entries[key := e'];
    }

    /** `find`: the list for the key, or nothing for a key that was never loaded. */
    function Find(key: K): (r: Option<seq<Dissector<P>>>)
      reads this
      ensures r.None? <==> key !in entries
      ensures r.Some? ==> r.value == entries[key].dissectors
    {
      if key in entries then Some(entries[key].dissectors) else None
    }
  }

  // ---------------------------------------------------------------------
  // Dissecting through a table
  // ---------------------------------------------------------------------

  /** The index of the first dissector that succeeds or fails hard on `buf`. */
  function FirstDecisive<P>(ds: seq<Dissector<P>>, buf: seq<u8>): (i: Option<nat>)
    ensures i.Some? ==> i.value < |ds| && (ds[i.value](buf).Parsed? || ds[i.value](buf).Failure?)
    ensures i.Some? ==> forall j :: 0 <= j < i.value ==> !ds[j](buf).Parsed? && !ds[j](buf).Failure?
    ensures i.None? ==> forall j :: 0 <= j < |ds| ==> !ds[j](buf).Parsed? && !ds[j](buf).Failure?
    decreases |ds|
  {
    if ds == [] then None
    else if ds[0](buf).Parsed? || ds[0](buf).Failure? then Some(0)
    else match FirstDecisive(ds[1..], buf)
      case None => None
      case Some(i) => Some(i + 1)
  }

  /** What the loop of `DissectorTableParser::parse` returns for a list of dissectors. */
  function FirstSuccess<P>(ds: seq<Dissector<P>>, buf: seq<u8>): (r: DResult<P>)
    decreases |ds|
  {
    if ds == [] then Error(D.Malformed)
    else match ds[0](buf)
      case Parsed(rest, v) => Parsed(rest, v)
      case Failure(e) => Failure(e)
      case _ => FirstSuccess(ds[1..], buf)
  }

  /**
   * The first dissector that succeeds gives the result, a hard failure ends
   * the search, and errors and requests for more input pass on to the next
   * dissector; when none decides, the result is `Malformed`.
   */
  lemma {:induction false} FirstSuccessIsFirstDecisive<P>(ds: seq<Dissector<P>>, buf: seq<u8>)
    ensures FirstDecisive(ds, buf).None? ==> FirstSuccess(ds, buf) == Error(D.Malformed)
    ensures FirstDecisive(ds, buf).Some? ==> FirstSuccess(ds, buf) == ds[FirstDecisive(ds, buf).value](buf)
    decreases |ds|
  {
    if ds != [] && !(ds[0](buf).Parsed? || ds[0](buf).Failure?) {
      FirstSuccessIsFirstDecisive(ds[1..], buf);
    }
  }

  /** `DissectorTableParser::parse`: `found` is what `find` returned, nothing for a null parser. */
  method Parse<P>(found: Option<seq<Dissector<P>>>, buf: seq<u8>) returns (r: DResult<P>)
    ensures r == FirstSuccess(if found.Some? then found.value else [], buf)
  {
    var ds := if found.Some? then found.value else [];
    for i := 0 to |ds|
      invariant FirstSuccess(ds, buf) == FirstSuccess(ds[i..], buf)
    {
      assert ds[i..][1..] == ds[i + 1..];
      match ds[i](buf)
      case Parsed(rest, v) =>
        return Parsed(rest, v);
      case Failure(e) =>
        return Failure(e);
      case _ =>
    }
    return Error(D.Malformed);
  }

  /**
   * `dissect_or_raw`: a recoverable error from the table falls back to a raw
   * PDU holding the whole buffer, so the result is never an error.
   */
  method DissectOrRaw<P>(found: Option<seq<Dissector<P>>>, buf: seq<u8>, raw: seq<u8> -> P) returns (r: DResult<P>)
    ensures !r.Error? && !r.Incomplete?
    ensures FirstSuccess(if found.Some? then found.value else [], buf).Error? ==> r == Parsed([], raw(buf))
    ensures !FirstSuccess(if found.Some? then found.value else [], buf).Error? ==>
      r == FirstSuccess(if found.Some? then found.value else [], buf)
  {
    r := Parse(found, buf);
    var ds := if found.Some? then found.value else [];
    FirstSuccessIsFirstDecisive(ds, buf);
    if r.Error? {
      r := Parsed([], raw(buf));
    }
  }

}
