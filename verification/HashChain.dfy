/**
 The hash-chained audit journal, over an arbitrary hash of (previous hash, entry).
 Time stamp and detail are the texts that JSON gives them, which is all the hash sees.
 */
module HashChain {

  type Hash = string

  datatype Body = Body(event: string, timestamp: string, detail: string)

  datatype Entry = Entry(body: Body, hash: Hash)

  type HashFn = (Hash, Body) -> Hash

  const GENESIS: Hash := "0000000000000000000000000000000000000000000000000000000000000000"

  /** The hash that entry i must have been chained to. */
  function Prev(es: seq<Entry>, i: nat): Hash
    requires i <= |es|
  {
    if i == 0 then GENESIS else es[i - 1].hash
  }

  /** What verify_integrity promises: every entry chains to the one before, the first to genesis. */
  ghost predicate Chained(h: HashFn, es: seq<Entry>) {
    forall i :: 0 <= i < |es| ==> Links(h, es, i)
  }

  predicate Links(h: HashFn, es: seq<Entry>, i: nat)
    requires i < |es|
  {
    es[i].hash == h(Prev(es, i), es[i].body)
  }

  datatype Journal = Journal(entries: seq<Entry>, prevHash: Hash)

  const EMPTY := Journal([], GENESIS)

  function Log(h: HashFn, max: int, j: Journal, body: Body): Journal {
    var hash := h(j.prevHash, body);
    var es := j.entries + [Entry(body, hash)];
    Journal(if |es| > max then es[1..] else es, hash)
  }

  class HashChainedLog {
    const maxEntries: int
    const h: HashFn
    var entries: seq<Entry>
    var prevHash: Hash

    function View(): Journal
      reads this
    {
      Journal(entries, prevHash)
    }

    constructor (maxEntries: int, h: HashFn)
      ensures this.maxEntries == maxEntries && this.h == h && View() == EMPTY
    {
      this.maxEntries := maxEntries;
      this.h := h;
      entries := [];
      prevHash := GENESIS;
    }

    method LogEvent(event: string, timestamp: string, detail: string)
      modifies this
      ensures View() == Log(h, maxEntries, old(View()), Body(event, timestamp, detail))
    {
      var body := Body(event, timestamp, detail);
      var entry := Entry(body, h(prevHash, body));
      prevHash := entry.hash;
      entries := entries + [entry];
      if |entries| > maxEntries {
        entries := entries[1..];
      }
    }

    method VerifyIntegrity() returns (ok: bool)
      ensures ok <==> Chained(h, entries)
    {
      var prev := GENESIS;
      for i := 0 to |entries|
        invariant prev == Prev(entries, i)
        invariant forall j :: 0 <= j < i ==> Links(h, entries, j)
      {
        var e := entries[i];
        if e.hash != h(prev, e.body) {
          assert !Links(h, entries, i);
          return false;
        }
        prev := e.hash;
      }
      return true;
    }
  }

  // ---------- runs ----------

  /** The journal after logging the given events in order. */
  function Run(h: HashFn, max: int, bodies: seq<Body>): Journal {
    if bodies == [] then EMPTY
    else Log(h, max, Run(h, max, bodies[..|bodies| - 1]), bodies[|bodies| - 1])
  }

  /** The whole chain over those events, before any eviction. */
  function Chain(h: HashFn, bodies: seq<Body>): (es: seq<Entry>)
    ensures |es| == |bodies|
  {
    if bodies == [] then []
    else
      var es := Chain(h, bodies[..|bodies| - 1]);
      var body := bodies[|bodies| - 1];
      es + [Entry(body, h(Prev(es, |es|), body))]
  }

  lemma {:induction false} ChainIsChained(h: HashFn, bodies: seq<Body>)
    ensures Chained(h, Chain(h, bodies))
    ensures forall i :: 0 <= i < |bodies| ==> Chain(h, bodies)[i].body == bodies[i]
  {
    if bodies != [] {
      ChainIsChained(h, bodies[..|bodies| - 1]);
      var es, init := Chain(h, bodies), Chain(h, bodies[..|bodies| - 1]);
      forall i | 0 <= i < |es|
        ensures Links(h, es, i)
      {
        if i < |init| {
          assert Links(h, init, i);
        }
      }
    }
  }

  /** The journal holds the newest `max` entries of the whole chain and its last hash. */
  lemma {:induction false} RunKeepsSuffix(h: HashFn, max: int, bodies: seq<Body>)
    ensures var es := Chain(h, bodies);
            var kept := if |bodies| <= max then |bodies| else if max < 0 then 0 else max;
            Run(h, max, bodies) == Journal(es[|es| - kept..], Prev(es, |es|))
  {
    if bodies != [] {
      RunKeepsSuffix(h, max, bodies[..|bodies| - 1]);
    }
  }

  /** Any run of at most max_entries calls verifies and holds exactly the logged events. */
  lemma ShortRunVerifies(h: HashFn, max: int, bodies: seq<Body>)
    requires |bodies| <= max
    ensures var es := Run(h, max, bodies).entries;
            Chained(h, es) && |es| == |bodies| && forall i :: 0 <= i < |es| ==> es[i].body == bodies[i]
  {
    RunKeepsSuffix(h, max, bodies);
    ChainIsChained(h, bodies);
  }

  // ---------- tamper evidence, where no hash collides ----------

  /** What the hash of entry i is computed from. */
  function Input(es: seq<Entry>, i: nat): (Hash, Body)
    requires i < |es|
  {
    (Prev(es, i), es[i].body)
  }

  /** All that logging or verifying the journal puts into the hash. */
  ghost function Inputs(es: seq<Entry>): set<(Hash, Body)> {
    set i | 0 <= i < |es| :: Input(es, i)
  }

  /** Among these inputs no two collide and none hashes to the genesis value. */
  ghost predicate CollisionFree(h: HashFn, inputs: set<(Hash, Body)>) {
    && (forall x, y :: x in inputs && y in inputs && h(x.0, x.1) == h(y.0, y.1) ==> x == y)
    && (forall x :: x in inputs ==> h(x.0, x.1) != GENESIS)
  }

  lemma PrefixInputs(h: HashFn, es: seq<Entry>, n: nat, inputs: set<(Hash, Body)>)
    requires n <= |es| && Inputs(es) <= inputs
    ensures Inputs(es[..n]) <= inputs
  {
    forall i | 0 <= i < n
      ensures Input(es[..n], i) in inputs
    {
      assert Input(es[..n], i) == Input(es, i);
    }
  }

  /**
   With room for an entry, a journal verifies exactly until the first
   eviction, unless two inputs hashed in logging or verifying it collide.
   */
  lemma VerifiesUntilEviction(h: HashFn, max: int, bodies: seq<Body>)
    requires max >= 1 && CollisionFree(h, Inputs(Chain(h, bodies)) + Inputs(Run(h, max, bodies).entries))
    ensures Chained(h, Run(h, max, bodies).entries) <==> |bodies| <= max
  {
    RunKeepsSuffix(h, max, bodies);
    ChainIsChained(h, bodies);
    if |bodies| > max {
      var es, i := Chain(h, bodies), |bodies| - max;
      var kept := Run(h, max, bodies).entries;
      assert Links(h, es, i) && Links(h, es, i - 1);
      assert kept[0] == es[i];
      assert Input(es, i) in Inputs(es) && Input(es, i - 1) in Inputs(es) && Input(kept, 0) in Inputs(kept);
      assert !Links(h, kept, 0);
    }
  }

  /** Without room for an entry nothing is ever kept, and the empty journal verifies. */
  lemma NoRoomVerifies(h: HashFn, max: int, bodies: seq<Body>)
    requires max <= 0
    ensures Run(h, max, bodies).entries == [] && Chained(h, Run(h, max, bodies).entries)
  {
    RunKeepsSuffix(h, max, bodies);
  }

  lemma EndsPastGenesis(h: HashFn, es: seq<Entry>, inputs: set<(Hash, Body)>)
    requires CollisionFree(h, inputs) && Inputs(es) <= inputs && Chained(h, es)
    ensures Prev(es, |es|) == GENESIS <==> es == []
  {
    if es != [] {
      assert Links(h, es, |es| - 1) && Input(es, |es| - 1) in Inputs(es);
    }
  }

  /** Two verified journals that end in the same hash are the same journal. */
  lemma LastHashDetermines(h: HashFn, es: seq<Entry>, fs: seq<Entry>)
    requires CollisionFree(h, Inputs(es) + Inputs(fs)) && Chained(h, es) && Chained(h, fs)
    requires Prev(es, |es|) == Prev(fs, |fs|)
    ensures es == fs
  {
    SameEndSameJournal(h, es, fs, Inputs(es) + Inputs(fs));
  }

  lemma {:induction false} SameEndSameJournal(h: HashFn, es: seq<Entry>, fs: seq<Entry>, inputs: set<(Hash, Body)>)
    requires CollisionFree(h, inputs) && Inputs(es) <= inputs && Inputs(fs) <= inputs
    requires Chained(h, es) && Chained(h, fs)
    requires Prev(es, |es|) == Prev(fs, |fs|)
    ensures es == fs
  {
    if es == [] || fs == [] {
      EndsPastGenesis(h, es, inputs);
      EndsPastGenesis(h, fs, inputs);
    } else {
      var m, n := |es| - 1, |fs| - 1;
      assert Links(h, es, m) && Links(h, fs, n);
      assert Input(es, m) in Inputs(es) && Input(fs, n) in Inputs(fs);
      PrefixChained(h, es, m);
      PrefixChained(h, fs, n);
      PrefixInputs(h, es, m, inputs);
      PrefixInputs(h, fs, n, inputs);
      SameEndSameJournal(h, es[..m], fs[..n], inputs);
      assert es == es[..m] + [es[m]];
      assert fs == fs[..n] + [fs[n]];
    }
  }

  lemma PrefixChained(h: HashFn, es: seq<Entry>, n: nat)
    requires Chained(h, es) && n <= |es|
    ensures Chained(h, es[..n])
  {
    forall i | 0 <= i < n
      ensures Links(h, es[..n], i)
    {
      assert Links(h, es, i);
    }
  }

  /** In a verified journal no entry repeats the hash of the one before it. */
  lemma {:induction false} NeighboursDiffer(h: HashFn, es: seq<Entry>, i: nat)
    requires CollisionFree(h, Inputs(es)) && Chained(h, es) && i < |es|
    ensures es[i].hash != Prev(es, i)
  {
    assert Links(h, es, i) && Input(es, i) in Inputs(es);
    if i > 0 {
      assert Links(h, es, i - 1) && Input(es, i - 1) in Inputs(es);
      NeighboursDiffer(h, es, i - 1);
    }
  }

  /** Deleting an entry of a verified journal goes unnoticed exactly when it is the newest. */
  lemma DeletionDetected(h: HashFn, es: seq<Entry>, i: nat)
    requires i < |es| && Chained(h, es)
    requires CollisionFree(h, Inputs(es) + Inputs(es[..i] + es[i + 1..]))
    ensures Chained(h, es[..i] + es[i + 1..]) <==> i == |es| - 1
  {
    var cut := es[..i] + es[i + 1..];
    if i == |es| - 1 {
      assert cut == es[..i];
      PrefixChained(h, es, i);
    } else {
      assert Links(h, es, i + 1);
      NeighboursDiffer(h, es, i);
      assert cut[i] == es[i + 1] && Prev(cut, i) == Prev(es, i);
      assert Input(es, i + 1) in Inputs(es) && Input(cut, i) in Inputs(cut);
      assert !Links(h, cut, i);
    }
  }

  lemma PastGenesis(h: HashFn, es: seq<Entry>, i: nat)
    requires CollisionFree(h, Inputs(es)) && Chained(h, es) && i < |es|
    ensures es[i].hash != GENESIS
  {
    assert Links(h, es, i) && Input(es, i) in Inputs(es);
  }

  /** In a verified journal no two entries have the same hash. */
  lemma {:induction false} HashesDistinct(h: HashFn, es: seq<Entry>, i: nat, j: nat)
    requires CollisionFree(h, Inputs(es)) && Chained(h, es) && i < j < |es|
    ensures es[i].hash != es[j].hash
  {
    assert Links(h, es, i) && Links(h, es, j);
    assert Input(es, i) in Inputs(es) && Input(es, j) in Inputs(es);
    if i > 0 {
      HashesDistinct(h, es, i - 1, j - 1);
    } else {
      PastGenesis(h, es, j - 1);
    }
  }

  /** Wherever an entry of a verified journal links in another journal, it links to the hash it did. */
  lemma SamePredecessor(h: HashFn, es: seq<Entry>, k: nat, fs: seq<Entry>, i: nat)
    requires CollisionFree(h, Inputs(es) + Inputs(fs)) && Chained(h, es)
    requires k < |es| && i < |fs| && Links(h, fs, i) && fs[i] == es[k]
    ensures Prev(fs, i) == Prev(es, k)
  {
    assert Links(h, es, k);
    assert Input(es, k) in Inputs(es) && Input(fs, i) in Inputs(fs);
  }

  lemma {:induction false} RearrangedAt(h: HashFn, es: seq<Entry>, fs: seq<Entry>, i: nat)
    requires CollisionFree(h, Inputs(es) + Inputs(fs)) && Chained(h, es) && Chained(h, fs)
    requires forall j :: 0 <= j < |fs| ==> fs[j] in es
    requires i < |fs|
    ensures i < |es| && fs[i] == es[i]
  {
    var k :| 0 <= k < |es| && es[k] == fs[i];
    assert Links(h, fs, i);
    SamePredecessor(h, es, k, fs, i);
    if i == 0 {
      if k > 0 {
        PastGenesis(h, es, k - 1);
      }
    } else {
      RearrangedAt(h, es, fs, i - 1);
      PastGenesis(h, es, i - 1);
      if k > i {
        HashesDistinct(h, es, i - 1, k - 1);
      } else if 0 < k < i {
        HashesDistinct(h, es, k - 1, i - 1);
      }
    }
  }

  /**
   Entries of a verified journal, some deleted, reordered or repeated at will,
   verify exactly if what is left is a prefix of that journal.
   */
  lemma RearrangementDetected(h: HashFn, es: seq<Entry>, fs: seq<Entry>)
    requires CollisionFree(h, Inputs(es) + Inputs(fs)) && Chained(h, es)
    requires forall j :: 0 <= j < |fs| ==> fs[j] in es
    ensures Chained(h, fs) <==> fs <= es
  {
    if fs <= es {
      assert fs == es[..|fs|];
      PrefixChained(h, es, |fs|);
    }
    if Chained(h, fs) {
      forall i | 0 <= i < |fs|
        ensures i < |es| && fs[i] == es[i]
      {
        RearrangedAt(h, es, fs, i);
      }
      if |fs| > 0 {
        RearrangedAt(h, es, fs, |fs| - 1);
      }
    }
  }

  /** An entry that both journals share fixes the hash of the entry before it. */
  lemma SuccessorFixes(h: HashFn, es: seq<Entry>, fs: seq<Entry>, i: nat)
    requires CollisionFree(h, Inputs(es) + Inputs(fs)) && Chained(h, es) && Chained(h, fs)
    requires i + 1 < |es| && i + 1 < |fs| && es[i + 1] == fs[i + 1]
    ensures es[i].hash == fs[i].hash
  {
    assert Links(h, es, i + 1) && Links(h, fs, i + 1);
    assert Input(es, i + 1) in Inputs(es) && Input(fs, i + 1) in Inputs(fs);
  }

  /**
   Overwriting an entry of a verified journal goes unnoticed exactly when
   nothing changed or the newest entry was replaced with its hash recomputed.
   */
  lemma ModificationDetected(h: HashFn, es: seq<Entry>, i: nat, e: Entry)
    requires i < |es| && Chained(h, es)
    requires CollisionFree(h, Inputs(es) + Inputs(es[i := e]))
    ensures Chained(h, es[i := e])
       <==> e == es[i] || (i == |es| - 1 && e.hash == h(Prev(es, i), e.body))
  {
    var fs := es[i := e];
    assert Prev(fs, i) == Prev(es, i);
    assert Links(h, es, i);
    if e == es[i] {
      assert fs == es;
    } else if Chained(h, fs) {
      assert Links(h, fs, i);
      assert Input(es, i) in Inputs(es) && Input(fs, i) in Inputs(fs);
      if i < |es| - 1 {
        SuccessorFixes(h, es, fs, i);
      }
    } else if i == |es| - 1 && e.hash == h(Prev(es, i), e.body) {
      forall k | 0 <= k < |fs|
        ensures Links(h, fs, k)
      {
        assert Links(h, es, k);
      }
    }
  }

  // ---------- a hash without collisions ----------

  /** A text that tells where it ends: its length in unary, a zero, then the text. */
  function Delimited(s: string): (d: string)
    ensures |d| == 2 * |s| + 1
    ensures forall i :: 0 <= i < |d| ==> d[i] == if i < |s| then '1' else if i == |s| then '0' else s[i - |s| - 1]
  {
    seq(|s|, _ => '1') + "0" + s
  }

  lemma DelimiterPlace(s: string, x: string, t: string, y: string)
    requires |s| < |t|
    ensures Delimited(s) + x != Delimited(t) + y
  {
    assert (Delimited(s) + x)[|s|] == '0' && (Delimited(t) + y)[|s|] == '1';
  }

  lemma DelimitedSplits(s: string, x: string, t: string, y: string)
    requires Delimited(s) + x == Delimited(t) + y
    ensures s == t && x == y
  {
    if |s| < |t| {
      DelimiterPlace(s, x, t, y);
    } else if |t| < |s| {
      DelimiterPlace(t, y, s, x);
    } else {
      assert (Delimited(s) + x)[|s| + 1..2 * |s| + 1] == s;
      assert (Delimited(t) + y)[|t| + 1..2 * |t| + 1] == t;
      assert (Delimited(s) + x)[2 * |s| + 1..] == x;
      assert (Delimited(t) + y)[2 * |t| + 1..] == y;
    }
  }

  /** The hashed text itself, made to tell where its parts end. */
  function TextHash(prev: Hash, body: Body): Hash {
    Delimited(prev) + (Delimited(body.event) + (Delimited(body.timestamp) + body.detail)) + "#"
  }

  /** The hypothesis of the theorems above can be met, even for all inputs at once. */
  lemma CollisionFreeHashExists(inputs: set<(Hash, Body)>)
    ensures CollisionFree(TextHash, inputs)
  {
    forall x, y | x in inputs && y in inputs && TextHash(x.0, x.1) == TextHash(y.0, y.1)
      ensures x == y
    {
      TextHashInjective(x.0, x.1, y.0, y.1);
    }
    forall x | x in inputs
      ensures TextHash(x.0, x.1) != GENESIS
    {
      var text := TextHash(x.0, x.1);
      assert text[|text| - 1] == '#' && GENESIS[|GENESIS| - 1] == '0';
    }
  }

  lemma TextHashInjective(p: Hash, b: Body, q: Hash, c: Body)
    requires TextHash(p, b) == TextHash(q, c)
    ensures p == q && b == c
  {
    var b2, c2 := Delimited(b.timestamp) + b.detail, Delimited(c.timestamp) + c.detail;
    var b1, c1 := Delimited(b.event) + b2, Delimited(c.event) + c2;
    assert TextHash(p, b)[..|TextHash(p, b)| - 1] == Delimited(p) + b1;
    assert TextHash(q, c)[..|TextHash(q, c)| - 1] == Delimited(q) + c1;
    DelimitedSplits(p, b1, q, c1);
    DelimitedSplits(b.event, b2, c.event, c2);
    DelimitedSplits(b.timestamp, b.detail, c.timestamp, c.detail);
  }
}
