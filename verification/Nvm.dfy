/** The persistent store: names of its cells, the in-memory map, and its file. */
module Nvm {
  import opened NvmCodec

  type Store = map<string, Value>

  // ---------- cell names ----------

  const FRESHNESS_PREFIX := "freshness_"
  const LAST_VALID_SUFFIX := "_last_valid"
  const WINDOW_SUFFIX := "_anti_replay_window"
  const KEY_META_PREFIX := "key_meta_"

  function LastValidName(pduId: string): string {
    FRESHNESS_PREFIX + pduId + LAST_VALID_SUFFIX
  }

  function WindowName(pduId: string): string {
    FRESHNESS_PREFIX + pduId + WINDOW_SUFFIX
  }

  function KeyMetaName(pduId: string): string {
    KEY_META_PREFIX + pduId
  }

  lemma AffixInjective(pre: string, p: string, q: string, post: string)
    ensures pre + p + post == pre + q + post <==> p == q
  {
    var a, b := pre + p + post, pre + q + post;
    if a == b {
      assert |p| == |q|;
      assert p == a[|pre|..|pre| + |p|];
      assert q == b[|pre|..|pre| + |q|];
    }
  }

  /** Names of different PDUs differ, names of different kinds differ, and none is the codec's tag. */
  lemma NamesDisjoint(p: string, q: string)
    ensures LastValidName(p) == LastValidName(q) <==> p == q
    ensures WindowName(p) == WindowName(q) <==> p == q
    ensures KeyMetaName(p) == KeyMetaName(q) <==> p == q
    ensures LastValidName(p) != WindowName(q)
    ensures LastValidName(p) != KeyMetaName(q)
    ensures WindowName(p) != KeyMetaName(q)
    ensures MARKER !in {LastValidName(p), WindowName(p), KeyMetaName(p)}
  {
    AffixInjective(FRESHNESS_PREFIX, p, q, LAST_VALID_SUFFIX);
    AffixInjective(FRESHNESS_PREFIX, p, q, WINDOW_SUFFIX);
    AffixInjective(KEY_META_PREFIX, p, q, "");
    assert KEY_META_PREFIX + p + "" == KeyMetaName(p);
    assert KEY_META_PREFIX + q + "" == KeyMetaName(q);
    assert LastValidName(p)[|LastValidName(p)| - 1] == 'd';
    assert WindowName(q)[|WindowName(q)| - 1] == 'w';
    assert LastValidName(p)[0] == 'f' && WindowName(p)[0] == 'f';
    assert KeyMetaName(q)[0] == 'k' && KeyMetaName(p)[0] == 'k' && MARKER[0] == '_';
  }

  // ---------- the file ----------

  datatype File = Absent | Unparsable | Document(tree: Value)

  /** The document that flush writes for a store. */
  function Image(store: Store): File {
    Document(Encode(Dict(store)))
  }

  /** Other: the document is not an object, so the constructor succeeds and every use of the store raises. */
  datatype Loaded = Object(store: Store) | Other(tree: Value) | LoadRaises

  /** What a new NvM makes of its file. */
  function LoadFile(file: File): Loaded {
    match file
    case Absent => Object(map[])
    case Unparsable => Object(map[])
    case Document(tree) =>
      match Decode(tree)
      case Got(Dict(m)) => Object(m)
      case Got(v) => Other(v)
      case Raised => LoadRaises
  }

  /**
   Opening: no file, and a file that is not JSON, give an empty store; a
   document gives the tree it stands for, as a store if that is an object; and
   opening raises exactly for a document that stands for no tree.
   */
  lemma OpeningOutcome(file: File, w: Value)
    ensures file.Absent? || file.Unparsable? ==> LoadFile(file) == Object(map[])
    ensures file.Document? ==>
              (Replaced(file.tree, w) <==> LoadFile(file) == if w.Dict? then Object(w.fields) else Other(w))
    ensures LoadFile(file).LoadRaises? <==> file.Document? && forall u :: !Replaced(file.tree, u)
  {
    if file.Document? {
      DecodeReplaces(file.tree, w);
      OnlyObjectsAreStores(file.tree);
      forall u { DecodeReplaces(file.tree, u); }
      if Decode(file.tree).Got? {
        assert Replaced(file.tree, Decode(file.tree).value);
      }
    }
  }

  lemma OnlyObjectsAreStores(tree: Value)
    ensures LoadFile(Document(tree)).Other? ==> !LoadFile(Document(tree)).tree.Dict?
    ensures forall u :: Decode(tree) == Got(u) <==>
              LoadFile(Document(tree)) == if u.Dict? then Object(u.fields) else Other(u)
  {}

  /** A flushed store is loaded back exactly when it does not imitate the codec's tag. */
  lemma ReloadAfterFlush(store: Store)
    ensures LoadFile(Image(store)) == Object(store) <==> Untagged(Dict(store))
  {
    RoundTrip(Dict(store));
  }

  class NvM {
    var store: Store
    var file: File
    var tmp: File

    /** No write is pending: the file holds the image of the in-memory store. */
    ghost predicate Durable()
      reads this
    {
      file == Image(store)
    }

    constructor (file: File, store: Store)
      ensures this.file == file && this.store == store && tmp == Absent
    {
      this.file := file;
      this.store := store;
      tmp := Absent;
    }

    /**
     A store over its file. A document that is not an object is returned
     instead: the source's object then holds it, and every read and write of
     that object raises.
     */
    static method Open(file: File) returns (loaded: Loaded, nvm: NvM?)
      ensures loaded == LoadFile(file)
      ensures loaded.Object? ==>
                nvm != null && fresh(nvm) && nvm.store == loaded.store && nvm.file == file && nvm.tmp == Absent
      ensures !loaded.Object? ==> nvm == null
    {
      nvm := null;
      loaded := LoadFile(file);
      if loaded.Object? {
        nvm := new NvM(file, loaded.store);
      }
    }

    function Read(name: string, default: Value): Value
      reads this
    {
      if name in store then store[name] else default
    }

    /** Write the temporary file, then rename it over the old one. */
    method Flush()
      modifies this`file, this`tmp
      ensures Durable() && tmp == Absent
    {
      tmp := Image(store);
      file, tmp := tmp, Absent;
    }

    method Write(name: string, value: Value)
      modifies this
      ensures store == old(store)[name := value]
      ensures Durable() && tmp == Absent
    {
      store := store[name := value];
      Flush();
    }
  }
}
