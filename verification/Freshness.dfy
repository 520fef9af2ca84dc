/** Windowed reconstruction of the full freshness value from its truncated wire form. */
module Freshness {
  import opened Arith
  import opened Bytes
  import opened Wrappers
  import opened NvmCodec
  import opened Nvm

  /** The value the receiver reconstructs from last valid value l and wire value t. */
  function Candidate(l: int, modulus: int, t: int): int
    requires modulus > 0
  {
    var c := l / modulus * modulus + t;
    if c <= l then c + modulus else c
  }

  /** validate_freshness: the full value if it lies in (l, l + window], otherwise a rejection. */
  function Validate(l: int, window: int, modulus: int, t: int): Option<int>
    requires modulus > 0
  {
    var c := Candidate(l, modulus, t);
    if 0 < c - l <= window then Some(c) else None
  }

  /** For a wire value below the modulus the candidate is the least congruent value above l. */
  lemma CandidateIsLeast(l: int, modulus: int, t: int)
    requires 0 <= t < modulus
    ensures var c := Candidate(l, modulus, t);
            && l < c <= l + modulus
            && c % modulus == t
            && forall v :: v > l && v % modulus == t ==> c <= v
  {
    var c := Candidate(l, modulus, t);
    DivMod(l, modulus);
    DivModUnique(l / modulus * modulus + t, modulus, l / modulus, t);
    ModShift(l / modulus * modulus + t, 1, modulus);
    forall v | v > l && v % modulus == t
      ensures c <= v
    {
      if v < c {
        CongruentApart(v, c, modulus);
      }
    }
  }

  /**
   Whatever the wire value, an accepted value lies in the window and is
   congruent to it; below the modulus acceptance holds exactly when some value
   of the window is congruent to the wire value, and then the least one is taken.
   */
  lemma AcceptedExactlyInWindow(l: int, window: int, modulus: int, t: int)
    requires modulus > 0 && t >= 0
    ensures var r := Validate(l, window, modulus, t);
            r.Some? ==> l < r.value <= l + window && r.value % modulus == t % modulus
    ensures t < modulus ==>
              (Validate(l, window, modulus, t).Some? <==> exists v :: l < v <= l + window && v % modulus == t)
    ensures var r := Validate(l, window, modulus, t);
            t < modulus && r.Some? ==> forall v :: l < v && v % modulus == t ==> r.value <= v
  {
    ModShift(t, l / modulus, modulus);
    ModShift(t, l / modulus + 1, modulus);
    assert (l / modulus + 1) * modulus == l / modulus * modulus + modulus;
    if t < modulus {
      CandidateIsLeast(l, modulus, t);
    }
  }

  /** Every value of the window is recovered from its truncation. */
  lemma TruncationInverted(l: int, window: int, modulus: int, v: int)
    requires 1 <= window <= modulus && l < v <= l + window
    ensures Validate(l, window, modulus, v % modulus) == Some(v)
  {
    CandidateIsLeast(l, modulus, v % modulus);
    var c := Candidate(l, modulus, v % modulus);
    if c < v {
      CongruentApart(c, v, modulus);
    }
  }

  /**
   A wire value accepted as v stays rejected until the last valid value reaches
   v + modulus - window. Below the modulus it is accepted exactly where a value
   congruent to v lies in the window: up to the next such value, exactly from
   v + modulus - window on.
   */
  lemma ReplayDistance(l: int, window: int, modulus: int, t: int, v: int)
    requires modulus > 0 && t >= 0 && v % modulus == t % modulus
    ensures v <= l && Validate(l, window, modulus, t).Some? ==> l >= v + modulus - window
    ensures t < modulus ==> (Validate(l, window, modulus, t).Some? <==> (v - l - 1) % modulus < window)
    ensures t < modulus && v <= l < v + modulus ==>
              (Validate(l, window, modulus, t).Some? <==> l >= v + modulus - window)
  {
    AcceptedExactlyInWindow(l, window, modulus, t);
    var r := Validate(l, window, modulus, t);
    if v <= l && r.Some? {
      CongruentApart(v, r.value, modulus);
    }
    if t < modulus {
      DivModUnique(t, modulus, 0, t);
      CandidateIsLeast(l, modulus, t);
      var c := Candidate(l, modulus, t);
      DivMod(c, modulus);
      DivMod(v, modulus);
      MulSub(v / modulus, c / modulus, modulus);
      DivModUnique(v - l - 1, modulus, v / modulus - c / modulus, c - l - 1);
      if v <= l {
        CongruentApart(v, c, modulus);
        if l < v + modulus {
          ModShift(v, 1, modulus);
        }
      }
    }
  }

  /**
   A wire value that was just accepted is accepted again at once only if the
   window spans the modulus; for one below the modulus, exactly then.
   */
  lemma ImmediateReplay(l: int, window: int, modulus: int, t: int, v: int)
    requires modulus > 0 && t >= 0 && Validate(l, window, modulus, t) == Some(v)
    ensures Validate(v, window, modulus, t).Some? ==> window >= modulus
    ensures t < modulus ==> (Validate(v, window, modulus, t).Some? <==> window >= modulus)
  {
    AcceptedExactlyInWindow(l, window, modulus, t);
    ReplayDistance(v, window, modulus, t, v);
  }

  // ---------- the persisted state ----------

  /** The whole number that freshness arithmetic sees in a cell; None where there is none. */
  function AsNumber(cell: Value): Option<int> {
    match cell
    case Int(i) => Some(i)
    case Bool(b) => Some(if b then 1 else 0)
    case _ => None
  }

  /** What load_last_valid_freshness returns: the cell as it is, 0 if there is none. */
  function Cell(store: Store, pduId: string): Value {
    if LastValidName(pduId) in store then store[LastValidName(pduId)] else Int(0)
  }

  /** The reconstruction from a cell that holds a float. */
  function FloatCandidate(l: real, modulus: int, t: int): real
    requires modulus > 0
  {
    var c := (l / modulus as real).Floor as real * modulus as real + t as real;
    if c <= l then c + modulus as real else c
  }

  /** A check of a wire value: the arithmetic raises, or the value is out of the window, or this is the full value. */
  datatype Checked = Unreadable | OutOfWindow | Full(value: int) | FloatFull(float: real)

  /** validate_freshness for any cell; only a float makes it accept a value that no MAC can be computed for. */
  function CheckCell(cell: Value, window: int, modulus: int, t: int): Checked
    requires modulus > 0
  {
    match AsNumber(cell)
    case Some(l) =>
      (match Validate(l, window, modulus, t)
       case Some(v) => Full(v)
       case None => OutOfWindow)
    case None =>
      if !cell.Float? then Unreadable
      else
        var c := FloatCandidate(cell.r, modulus, t);
        if 0.0 < c - cell.r <= window as real then FloatFull(c) else OutOfWindow
  }

  /** c is congruent to t for a float last value l: a whole multiple of the modulus away. */
  ghost predicate FloatCongruent(c: real, t: int, modulus: int) {
    exists n: int :: c == MultiplePlus(n, modulus, t)
  }

  function MultiplePlus(n: int, modulus: int, t: int): real {
    n as real * modulus as real + t as real
  }

  /**
   Whatever the cell holds: a truth value counts as 0 or 1, a number is checked
   as such, a float against a congruent float above it and within the window,
   and anything else raises.
   */
  lemma CellCheckMeans(cell: Value, window: int, modulus: int, t: int)
    requires 0 <= t < modulus
    ensures var r := CheckCell(cell, window, modulus, t);
            match cell
            case Int(l) => r == (match Validate(l, window, modulus, t) case Some(v) => Full(v) case None => OutOfWindow)
            case Bool(b) => r == CheckCell(Int(if b then 1 else 0), window, modulus, t)
            case Float(l) =>
              && (r.OutOfWindow? || r.FloatFull?)
              && (r.FloatFull? ==> l < r.float <= l + window as real && FloatCongruent(r.float, t, modulus))
              && (r.OutOfWindow? ==> forall n: int ::
                    !(l < MultiplePlus(n, modulus, t) <= l + window as real))
            case _ => r == Unreadable
  {
    if cell.Float? {
      FloatCandidateIsLeast(cell.r, modulus, t);
    }
  }

  lemma FloatCandidateIsLeast(l: real, modulus: int, t: int)
    requires 0 <= t < modulus
    ensures var c := FloatCandidate(l, modulus, t);
            && l < c && FloatCongruent(c, t, modulus)
            && forall n: int :: l < MultiplePlus(n, modulus, t) ==> c <= MultiplePlus(n, modulus, t)
  {
    var q, m := (l / modulus as real).Floor, modulus as real;
    FloorTimes(l, m);
    var c := FloatCandidate(l, modulus, t);
    var k := if MultiplePlus(q, modulus, t) <= l then q + 1 else q;
    RealDistribute(q as real, m);
    assert c == MultiplePlus(k, modulus, t);
    assert (k - 1) as real + 1.0 == k as real;
    RealDistribute((k - 1) as real, m);
    assert MultiplePlus(k - 1, modulus, t) <= l;
    forall n: int | l < MultiplePlus(n, modulus, t)
      ensures c <= MultiplePlus(n, modulus, t)
    {
      if n < k {
        MultipleMonotone(n, k - 1, modulus, t);
      } else {
        MultipleMonotone(k, n, modulus, t);
      }
    }
  }

  lemma MultipleMonotone(a: int, b: int, modulus: int, t: int)
    requires a <= b && modulus > 0
    ensures MultiplePlus(a, modulus, t) <= MultiplePlus(b, modulus, t)
  {
    RealMonotone(a as real, b as real, modulus as real);
  }

  lemma FloorTimes(l: real, m: real)
    requires m > 0.0
    ensures (l / m).Floor as real * m <= l < ((l / m).Floor as real + 1.0) * m
  {
    assert l / m * m == l;
    RealMonotone((l / m).Floor as real, l / m, m);
    var e := (l / m).Floor as real + 1.0 - l / m;
    assert e > 0.0 && e * m > 0.0;
    assert e * m == ((l / m).Floor as real + 1.0) * m - l / m * m;
  }

  lemma RealDistribute(a: real, m: real)
    ensures (a + 1.0) * m == a * m + m
  {}

  lemma RealMonotone(a: real, b: real, m: real)
    requires a <= b && m > 0.0
    ensures a * m <= b * m
  {
    assert (b - a) * m >= 0.0;
    assert (b - a) * m == b * m - a * m;
  }

  /** The PDU's cell is absent or holds a whole number. */
  predicate Readable(store: Store, pduId: string) {
    AsNumber(Cell(store, pduId)).Some?
  }

  /** The last committed value of a PDU, 0 if there is none yet. */
  function LastValid(store: Store, pduId: string): int {
    match AsNumber(Cell(store, pduId))
    case Some(l) => l
    case None => 0
  }

  /** What commit_freshness and reinitialize_window both write. */
  function Commit(store: Store, pduId: string, v: int): Store {
    store[LastValidName(pduId) := Int(v)][WindowName(pduId) := List([])]
  }

  /** A commit sets the PDU's two cells and no other. */
  lemma CommitIsTwoCells(store: Store, p: string, v: int, name: string)
    ensures Commit(store, p, v).Keys
         == store.Keys + {"freshness_" + p + "_last_valid", "freshness_" + p + "_anti_replay_window"}
    ensures Commit(store, p, v)["freshness_" + p + "_last_valid"] == Int(v)
    ensures Commit(store, p, v)["freshness_" + p + "_anti_replay_window"] == List([])
    ensures name in store && name != LastValidName(p) && name != WindowName(p) ==>
              Commit(store, p, v)[name] == store[name]
  {
    NamesDisjoint(p, p);
  }

  /** A commit sets the PDU's own value and leaves every other PDU's, and every key record, alone. */
  lemma CommitIsLocal(store: Store, p: string, v: int, q: string)
    ensures LastValid(Commit(store, p, v), p) == v && Readable(Commit(store, p, v), p)
    ensures q != p ==> Cell(Commit(store, p, v), q) == Cell(store, q)
    ensures KeyMetaName(q) in Commit(store, p, v) <==> KeyMetaName(q) in store
    ensures KeyMetaName(q) in store ==> Commit(store, p, v)[KeyMetaName(q)] == store[KeyMetaName(q)]
  {
    NamesDisjoint(p, q);
    NamesDisjoint(q, p);
    NamesDisjoint(p, p);
  }

  class FreshnessManager {
    const nvm: NvM
    const windowSize: int
    const freshnessLength: nat

    constructor (nvm: NvM, windowSize: int, freshnessLength: nat)
      ensures this.nvm == nvm && this.windowSize == windowSize && this.freshnessLength == freshnessLength
    {
      this.nvm := nvm;
      this.windowSize := windowSize;
      this.freshnessLength := freshnessLength;
    }

    function LoadLastValid(pduId: string): (cell: Value)
      reads nvm
      ensures cell == Cell(nvm.store, pduId)
    {
      nvm.Read(LastValidName(pduId), Int(0))
    }

    method ValidateFreshness(pduId: string, truncated: int) returns (r: Checked)
      ensures r == CheckCell(Cell(nvm.store, pduId), windowSize, Capacity(freshnessLength), truncated)
    {
      var modulus := Capacity(freshnessLength);
      var loaded := LoadLastValid(pduId);
      if loaded.Float? {
        return ValidateFloat(loaded.r, modulus, truncated);
      }
      var number := AsNumber(loaded);
      if number.None? {
        return Unreadable;
      }
      var lastValid := number.value;
      var candidate := lastValid / modulus * modulus + truncated;
      if candidate <= lastValid {
        candidate := candidate + modulus;
      }
      var delta := candidate - lastValid;
      if 0 < delta <= windowSize {
        return Full(candidate);
      }
      return OutOfWindow;
    }

    /** The same arithmetic on a float. */
    function ValidateFloat(lastValid: real, modulus: int, truncated: int): Checked
      requires modulus > 0
    {
      var candidate := FloatCandidate(lastValid, modulus, truncated);
      if 0.0 < candidate - lastValid <= windowSize as real then FloatFull(candidate) else OutOfWindow
    }

    method CommitFreshness(pduId: string, full: int)
      modifies nvm
      ensures nvm.store == Commit(old(nvm.store), pduId, full)
      ensures nvm.Durable() && nvm.tmp == Absent
    {
      nvm.Write(LastValidName(pduId), Int(full));
      nvm.Write(WindowName(pduId), List([]));
    }

    method ReinitializeWindow(pduId: string, resync: int)
      modifies nvm
      ensures nvm.store == Commit(old(nvm.store), pduId, resync)
      ensures nvm.Durable() && nvm.tmp == Absent
    {
      nvm.Write(LastValidName(pduId), Int(resync));
      nvm.Write(WindowName(pduId), List([]));
    }
  }
}
