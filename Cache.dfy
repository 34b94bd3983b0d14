/**
 * A user's cache (CodedCaching/Cache.py): coded subfiles keyed by their id,
 * with a free-space budget.  A new coded subfile is admitted only when it
 * fits in the free space; a stored one is replaced only when the space it
 * frees covers its replacement; a deletion gives its space back.
 */
module Cache {
  import opened Wrappers
  import opened Subfiles

  /** Stored coded subfiles, keyed by id. */
  type Content = map<int, CodedSubfileInfo>

  datatype CacheState = CacheState(Z: Content, freeSpace: int)

  /** What hasCacheSubfile may be asked about: a coded subfile, an integer id, or anything else. */
  datatype CacheQuery = ByObject(csubfile: CodedSubfileInfo) | ById(id: int) | Unknown

  datatype Raised = TypeError

  // ----- total size of the stored coded subfiles -----

  ghost function PickKey(Z: Content): (k: int)
    requires Z.Keys != {}
    ensures k in Z
  {
    ElementOrEmpty(Z.Keys);
    var k :| k in Z.Keys;
    k
  }

  ghost function SumSizes(Z: Content): int
    decreases |Z|
  {
    if Z.Keys == {} then 0
    else
      var k := PickKey(Z);
      Z[k].subfileSize + SumSizes(Z - {k})
  }

  /** The total splits off any stored entry, whichever key the sum takes first. */
  lemma {:induction false} SumRemove(Z: Content, k: int)
    requires k in Z
    ensures SumSizes(Z) == Z[k].subfileSize + SumSizes(Z - {k})
    decreases |Z|
  {
    var j := PickKey(Z);
    if j != k {
      SumRemove(Z - {j}, k);
      SumRemove(Z - {k}, j);
      assert Z - {j} - {k} == Z - {k} - {j};
    }
  }

  lemma {:induction false} SumNonNegative(Z: Content)
    requires forall k :: k in Z ==> Z[k].subfileSize >= 0
    ensures SumSizes(Z) >= 0
    decreases |Z|
  {
    if Z.Keys != {} {
      SumNonNegative(Z - {PickKey(Z)});
    }
  }

  // ----- the operations on values -----

  /** addCacheSubfile admits (or replaces with) c exactly when this holds. */
  predicate Fits(st: CacheState, c: CodedSubfileInfo)
  {
    if c.id in st.Z then st.freeSpace + st.Z[c.id].subfileSize >= c.subfileSize
    else c.subfileSize <= st.freeSpace
  }

  /** addCacheSubfile: store c under its id when it fits, paying for it from the free space. */
  function Admit(st: CacheState, c: CodedSubfileInfo): (r: CacheState)
    ensures !Fits(st, c) ==> r == st
    ensures Fits(st, c) ==> r.Z == st.Z[c.id := c]
    ensures Fits(st, c) && c.id !in st.Z ==> r.freeSpace == st.freeSpace - c.subfileSize
    ensures Fits(st, c) && c.id in st.Z ==>
              r.freeSpace == st.freeSpace + st.Z[c.id].subfileSize - c.subfileSize
  {
    if c.id !in st.Z then
      if c.subfileSize <= st.freeSpace then CacheState(st.Z[c.id := c], st.freeSpace - c.subfileSize) else st
    else
      var inCacheSize := st.Z[c.id].subfileSize;
      if st.freeSpace + inCacheSize >= c.subfileSize then
        CacheState(st.Z[c.id := c], st.freeSpace + inCacheSize - c.subfileSize)
      else st
  }

  /** delCacheSubfile: drop the entry under id and give its space back. */
  function Evict(st: CacheState, id: int): (r: CacheState)
    ensures id !in r.Z && r.Z == st.Z - {id}
    ensures id in st.Z ==> r.freeSpace == st.freeSpace + st.Z[id].subfileSize
    ensures id !in st.Z ==> r == st
  {
    if id in st.Z then CacheState(st.Z - {id}, st.freeSpace + st.Z[id].subfileSize) else st
  }

  /** setCacheContent: addCacheSubfile for each coded subfile in order. */
  function AdmitAll(st: CacheState, cs: seq<CodedSubfileInfo>): CacheState
  {
    if |cs| == 0 then st else Admit(AdmitAll(st, cs[..|cs| - 1]), cs[|cs| - 1])
  }

  /** Free space plus stored sizes: what the budget started with. */
  ghost function Budget(st: CacheState): int
  {
    st.freeSpace + SumSizes(st.Z)
  }

  /** The free space is never overdrawn and every stored size is non-negative. */
  ghost predicate CacheInv(st: CacheState)
  {
    st.freeSpace >= 0 && forall k :: k in st.Z ==> st.Z[k].subfileSize >= 0
  }

  lemma AdmitConserves(st: CacheState, c: CodedSubfileInfo)
    ensures Budget(Admit(st, c)) == Budget(st)
  {
    var r := Admit(st, c);
    if Fits(st, c) {
      SumRemove(r.Z, c.id);
      assert r.Z - {c.id} == st.Z - {c.id};
      if c.id in st.Z {
        SumRemove(st.Z, c.id);
      } else {
        assert st.Z - {c.id} == st.Z;
      }
    }
  }

  lemma EvictConserves(st: CacheState, id: int)
    ensures Budget(Evict(st, id)) == Budget(st)
  {
    if id in st.Z {
      SumRemove(st.Z, id);
    }
  }

  lemma AdmitKeepsInv(st: CacheState, c: CodedSubfileInfo)
    requires CacheInv(st) && c.subfileSize >= 0
    ensures CacheInv(Admit(st, c))
  {
  }

  lemma EvictKeepsInv(st: CacheState, id: int)
    requires CacheInv(st)
    ensures CacheInv(Evict(st, id))
  {
  }

  lemma {:induction false} AdmitAllConserves(st: CacheState, cs: seq<CodedSubfileInfo>)
    ensures Budget(AdmitAll(st, cs)) == Budget(st)
  {
    if |cs| > 0 {
      AdmitAllConserves(st, cs[..|cs| - 1]);
      AdmitConserves(AdmitAll(st, cs[..|cs| - 1]), cs[|cs| - 1]);
    }
  }

  lemma {:induction false} AdmitAllKeepsInv(st: CacheState, cs: seq<CodedSubfileInfo>)
    requires CacheInv(st)
    requires forall i :: 0 <= i < |cs| ==> cs[i].subfileSize >= 0
    ensures CacheInv(AdmitAll(st, cs))
  {
    if |cs| > 0 {
      AdmitAllKeepsInv(st, cs[..|cs| - 1]);
      AdmitKeepsInv(AdmitAll(st, cs[..|cs| - 1]), cs[|cs| - 1]);
    }
  }

  /**
   * An empty cache with budget B, filled from any list of coded subfiles
   * of non-negative size, never holds more than B.
   */
  lemma AdmitAllWithinBudget(B: int, cs: seq<CodedSubfileInfo>)
    requires B >= 0
    requires forall i :: 0 <= i < |cs| ==> cs[i].subfileSize >= 0
    ensures var r := AdmitAll(CacheState(map[], B), cs);
            0 <= SumSizes(r.Z) <= B && r.freeSpace == B - SumSizes(r.Z)
  {
    AdmitAllConserves(CacheState(map[], B), cs);
    AdmitAllKeepsInv(CacheState(map[], B), cs);
    var r := AdmitAll(CacheState(map[], B), cs);
    SumNonNegative(r.Z);
  }

  // ----- hasCacheSubfile -----

  /**
   * hasCacheSubfile as written: its first test calls isinstance with one
   * argument, which raises TypeError whatever it is asked.
   */
  function HasCacheSubfileAsWritten(Z: Content, q: CacheQuery): (r: Result<bool, Raised>)
    ensures r.Err?
  {
    Err(TypeError)
  }

  /** The key test hasCacheSubfile is evidently meant to make. */
  function HasCacheSubfileSpec(Z: Content, q: CacheQuery): (b: bool)
    ensures b <==> (q.ByObject? && q.csubfile.id in Z) || (q.ById? && q.id in Z)
  {
    match q
    case ByObject(c) => c.id in Z
    case ById(id) => id in Z
    case Unknown => false
  }

  /** As written, even a stored id gets TypeError instead of the intended True. */
  lemma HasCacheSubfileAsWrittenRaises()
    ensures var Z := map[1 := CodedSubfileInfo(1, 1)];
            HasCacheSubfileAsWritten(Z, ById(1)).Err? && HasCacheSubfileSpec(Z, ById(1))
  {
  }

  class Cache {
    var M: int
    var Z: Content
    var freeSpace: int

    ghost function Current(): CacheState
      reads this
    {
      CacheState(Z, freeSpace)
    }

    ghost predicate Valid()
      reads this
    {
      CacheInv(Current())
    }

    /** The arguments are accepted and ignored: a new cache is empty, with M = 0 and no free space. */
    constructor (M: int, cacheContent: seq<CodedSubfileInfo>)
      ensures Valid()
      ensures this.M == 0 && Z == map[] && freeSpace == 0
    {
      this.M := 0;
      Z := map[];
      freeSpace := 0;
    }

    /** setM: only M changes; the free space does not follow it. */
    method SetM(M: int)
      modifies this`M
      ensures this.M == M
    {
      this.M := M;
    }

    function GetM(): (m: int)
      reads this
      ensures m == M
    {
      M
    }

    /** The free space is never overdrawn and never exceeds the budget it was paid from. */
    function GetFreeSpace(): (free: int)
      requires Valid()
      reads this
      ensures 0 <= free <= Budget(Current())
    {
      SumNonNegative(Z);
      freeSpace
    }

    /** hasCacheSubfile, with the intended type test. */
    function HasCacheSubfile(q: CacheQuery): (b: bool)
      reads this
      ensures b <==> (q.ByObject? && q.csubfile.id in Z) || (q.ById? && q.id in Z)
    {
      HasCacheSubfileSpec(Z, q)
    }

    method AddCacheSubfile(c: CodedSubfileInfo)
      modifies this`Z, this`freeSpace
      ensures Current() == Admit(old(Current()), c)
      ensures Budget(Current()) == Budget(old(Current()))
      ensures old(Valid()) && c.subfileSize >= 0 ==> Valid()
    {
      AdmitConserves(Current(), c);
      var id := c.id;
      var size := c.subfileSize;
      if !HasCacheSubfile(ByObject(c)) {
        if size <= freeSpace {
          Z := Z[id := c];
          freeSpace := freeSpace - size;
        }
      } else {
        var inCacheSize := Z[id].subfileSize;
        if freeSpace + inCacheSize >= size {
          Z := Z[id := c];
          freeSpace := freeSpace + inCacheSize - size;
        }
      }
    }

    method DelCacheSubfile(id: int)
      modifies this`Z, this`freeSpace
      ensures Current() == Evict(old(Current()), id)
      ensures Budget(Current()) == Budget(old(Current()))
      ensures old(Valid()) ==> Valid()
    {
      EvictConserves(Current(), id);
      if HasCacheSubfile(ById(id)) {
        var c := Z[id];
        Z := Z - {id};
        freeSpace := freeSpace + c.subfileSize;
      }
    }

    /** setCacheContent: add each coded subfile in order, without clearing first. */
    method SetCacheContent(cacheContent: seq<CodedSubfileInfo>)
      modifies this`Z, this`freeSpace
      ensures Current() == AdmitAll(old(Current()), cacheContent)
      ensures Budget(Current()) == Budget(old(Current()))
    {
      ghost var st0 := Current();
      var i := 0;
      while i < |cacheContent|
        invariant 0 <= i <= |cacheContent|
        invariant Current() == AdmitAll(st0, cacheContent[..i])
      {
        assert cacheContent[..i + 1][..i] == cacheContent[..i];
        AddCacheSubfile(cacheContent[i]);
        i := i + 1;
      }
      assert cacheContent[..|cacheContent|] == cacheContent;
      AdmitAllConserves(st0, cacheContent);
    }
  }
}
