/**
 * A coded subfile (CodedCaching/CSubfile.py): a set of subfiles of one
 * common size, kept as a two-level map fileId -> subfileId -> Subfile,
 * with a counter of the stored pairs and a "brief" listing the pairs,
 * rebuilt when it is marked stale.
 */
module CSubfile {
  import opened Wrappers
  import opened Subfiles

  /** The stored part of a coded subfile: the map, the common size, the counter. */
  datatype Store = Store(subfiles: SubfileSet, size: int, counter: int)

  ghost predicate SizesAgree(s: SubfileSet, size: int)
  {
    forall f, sf :: f in s && sf in s[f] ==> s[f][sf].subfileSize == size
  }

  /** The counter counts the stored pairs, and every stored subfile has the common size. */
  ghost predicate StoreInv(st: Store)
  {
    WellKeyed(st.subfiles) && st.counter == |Pairs(st.subfiles)| && SizesAgree(st.subfiles, st.size)
  }

  /** A non-empty coded subfile refuses a subfile of another size. */
  predicate Rejects(st: Store, sub: Subfile)
  {
    st.counter != 0 && st.size != sub.subfileSize
  }

  /**
   * addSubfile on the stored part: an empty coded subfile adopts the size;
   * a size mismatch is refused; a pair already stored is left alone;
   * otherwise the pair is stored and counted.
   */
  function AddToStore(st: Store, sub: Subfile): (r: Store)
    ensures Rejects(st, sub) ==> r == st
    ensures !Rejects(st, sub) ==>
              r.size == sub.subfileSize && (sub.fileId, sub.subfileId) in Pairs(r.subfiles)
    ensures !Rejects(st, sub) && Stored(st.subfiles, sub.fileId, sub.subfileId) ==>
              r.subfiles == st.subfiles && r.counter == st.counter
    ensures !Rejects(st, sub) && !Stored(st.subfiles, sub.fileId, sub.subfileId) ==>
              Pairs(r.subfiles) == Pairs(st.subfiles) + {(sub.fileId, sub.subfileId)} && r.counter == st.counter + 1
  {
    StoredIffPair(st.subfiles, sub.fileId, sub.subfileId);
    var size := if st.counter == 0 then sub.subfileSize else st.size;
    if Rejects(st, sub) then st
    else if Stored(st.subfiles, sub.fileId, sub.subfileId) then st.(size := size)
    else Store(Insert(st.subfiles, sub), size, st.counter + 1)
  }

  /**
   * delSubfile on the stored part: a stored pair is removed and uncounted;
   * a counter that is not positive afterwards is set to 0 and the size reset.
   */
  function DelFromStore(st: Store, f: int, sf: int): (r: Store)
    ensures Stored(st.subfiles, f, sf) ==> Pairs(r.subfiles) == Pairs(st.subfiles) - {(f, sf)}
    ensures !Stored(st.subfiles, f, sf) ==> r.subfiles == st.subfiles
    ensures r.counter >= 0
    ensures r.counter == 0 ==> r.size == 0
    ensures r.counter > 0 ==> r.size == st.size && r.counter == st.counter - (if Stored(st.subfiles, f, sf) then 1 else 0)
  {
    var st1 := if Stored(st.subfiles, f, sf) then Store(Remove(st.subfiles, f, sf), st.size, st.counter - 1) else st;
    if st1.counter <= 0 then st1.(counter := 0, size := 0) else st1
  }

  /** setSubfileSet's loop: addSubfile for each subfile in order. */
  function AddAllToStore(st: Store, subs: seq<Subfile>): Store
  {
    if |subs| == 0 then st else AddToStore(AddAllToStore(st, subs[..|subs| - 1]), subs[|subs| - 1])
  }

  /** An empty map holds no pairs. */
  lemma EmptyPairs(s: SubfileSet)
    requires WellKeyed(s)
    ensures |Pairs(s)| == 0 <==> s == map[]
  {
    ElementOrEmpty(s.Keys);
    if s.Keys != {} {
      var f :| f in s.Keys;
      assert s[f].Keys != {};
      ElementOrEmpty(s[f].Keys);
      var sf :| sf in s[f].Keys;
      StoredIffPair(s, f, sf);
    } else {
      assert s == map[];
    }
  }

  lemma AddToStoreKeepsInv(st: Store, sub: Subfile)
    requires StoreInv(st)
    ensures StoreInv(AddToStore(st, sub))
  {
    var r := AddToStore(st, sub);
    StoredIffPair(st.subfiles, sub.fileId, sub.subfileId);
    InsertFacts(st.subfiles, sub);
    if !Rejects(st, sub) && !Stored(st.subfiles, sub.fileId, sub.subfileId) {
      if st.counter == 0 {
        EmptyPairs(st.subfiles);
      }
      forall f, sf | f in r.subfiles && sf in r.subfiles[f]
        ensures r.subfiles[f][sf].subfileSize == r.size
      {
        if (f, sf) != (sub.fileId, sub.subfileId) {
          assert f in st.subfiles && sf in st.subfiles[f];
        }
      }
    }
  }

  lemma DelFromStoreKeepsInv(st: Store, f: int, sf: int)
    requires StoreInv(st)
    ensures StoreInv(DelFromStore(st, f, sf))
  {
    StoredIffPair(st.subfiles, f, sf);
    if Stored(st.subfiles, f, sf) {
      var s' := Remove(st.subfiles, f, sf);
      assert |Pairs(s')| == |Pairs(st.subfiles)| - 1;
      EmptyPairs(s');
    } else {
      EmptyPairs(st.subfiles);
    }
  }

  lemma {:induction false} AddAllToStoreKeepsInv(st: Store, subs: seq<Subfile>)
    requires StoreInv(st)
    ensures StoreInv(AddAllToStore(st, subs))
  {
    if |subs| > 0 {
      AddAllToStoreKeepsInv(st, subs[..|subs| - 1]);
      AddToStoreKeepsInv(AddAllToStore(st, subs[..|subs| - 1]), subs[|subs| - 1]);
    }
  }

  /** An edit a caller may make: add a subfile, or delete a (fileId, subfileId) pair. */
  datatype Edit = AddEdit(sub: Subfile) | DelEdit(fileId: int, subfileId: int)

  function Replay(st: Store, edits: seq<Edit>): Store
  {
    if |edits| == 0 then st
    else
      var st' := Replay(st, edits[..|edits| - 1]);
      match edits[|edits| - 1]
      case AddEdit(sub) => AddToStore(st', sub)
      case DelEdit(f, sf) => DelFromStore(st', f, sf)
  }

  /** From an empty coded subfile, any sequence of adds and deletes keeps the counter equal to the number of stored pairs. */
  lemma {:induction false} ReplayKeepsCount(edits: seq<Edit>)
    ensures var st := Replay(Store(map[], 0, 0), edits);
            st.counter == |Pairs(st.subfiles)| && SizesAgree(st.subfiles, st.size)
  {
    ReplayKeepsInv(Store(map[], 0, 0), edits);
  }

  lemma {:induction false} ReplayKeepsInv(st: Store, edits: seq<Edit>)
    requires StoreInv(st)
    ensures StoreInv(Replay(st, edits))
  {
    if |edits| > 0 {
      ReplayKeepsInv(st, edits[..|edits| - 1]);
      var st' := Replay(st, edits[..|edits| - 1]);
      match edits[|edits| - 1]
      case AddEdit(sub) => AddToStoreKeepsInv(st', sub);
      case DelEdit(f, sf) => DelFromStoreKeepsInv(st', f, sf);
    }
  }

  // ----- the brief -----

  /** The brief lists exactly the stored pairs, each once. */
  ghost predicate ListsExactly(brief: seq<(int, int)>, P: set<(int, int)>)
  {
    (forall i, j :: 0 <= i < j < |brief| ==> brief[i] != brief[j]) &&
    (forall x :: x in brief <==> x in P)
  }

  /** The corrected brief after addSubfile: a newly stored pair is appended to a current brief. */
  function BriefAfterAdd(brief: seq<(int, int)>, upToDate: bool, st: Store, sub: Subfile): seq<(int, int)>
  {
    if upToDate && !Rejects(st, sub) && !Stored(st.subfiles, sub.fileId, sub.subfileId)
    then brief + [(sub.fileId, sub.subfileId)] else brief
  }

  /** addSubfile keeps the store invariant, and a current brief stays exact. */
  lemma AddKeepsBrief(st: Store, brief: seq<(int, int)>, upToDate: bool, sub: Subfile)
    requires StoreInv(st) && (upToDate ==> ListsExactly(brief, Pairs(st.subfiles)))
    ensures StoreInv(AddToStore(st, sub))
    ensures upToDate ==> ListsExactly(BriefAfterAdd(brief, upToDate, st, sub), Pairs(AddToStore(st, sub).subfiles))
  {
    AddToStoreKeepsInv(st, sub);
    StoredIffPair(st.subfiles, sub.fileId, sub.subfileId);
    if upToDate && !Rejects(st, sub) && !Stored(st.subfiles, sub.fileId, sub.subfileId) {
      ListsExactlyAppend(brief, Pairs(st.subfiles), (sub.fileId, sub.subfileId));
    }
  }

  /** Appending a pair not yet listed keeps the brief exact. */
  lemma ListsExactlyAppend(brief: seq<(int, int)>, P: set<(int, int)>, x: (int, int))
    requires ListsExactly(brief, P) && x !in P
    ensures ListsExactly(brief + [x], P + {x})
  {
    var b := brief + [x];
    forall i, j | 0 <= i < j < |b|
      ensures b[i] != b[j]
    {
      if j == |brief| {
        assert b[i] in brief;
      }
    }
  }

  /**
   * The brief update of addSubfile as written: the pair is appended only
   * when the coded subfile was empty and the brief was current.  Later
   * additions neither extend the brief nor mark it stale.
   */
  function BriefAfterAddAsWritten(brief: seq<(int, int)>, upToDate: bool, counter: int, sub: Subfile): (b: seq<(int, int)>)
    ensures counter != 0 ==> b == brief
    ensures |b| <= |brief| + 1
  {
    if counter == 0 && upToDate then brief + [(sub.fileId, sub.subfileId)] else brief
  }

  /**
   * Two subfiles of one size added to a fresh coded subfile: both are
   * stored and the brief is still marked current, but as written it lists
   * only the first.  And clearSubfile, as written, marks the old brief
   * current without emptying it.
   */
  lemma BriefAsWrittenMissesSubfile()
    ensures var a, b := Subfile(0, 0, 1), Subfile(0, 1, 1);
            var st1 := AddToStore(Store(map[], 0, 0), a);
            var st2 := AddToStore(st1, b);
            var brief := BriefAfterAddAsWritten(BriefAfterAddAsWritten([], true, 0, a), true, st1.counter, b);
            Pairs(st2.subfiles) == {(0, 0), (0, 1)} && brief == [(0, 0)] && !ListsExactly(brief, Pairs(st2.subfiles))
    ensures var c := Subfile(1, 1, 1);
            var st := AddToStore(Store(map[], 0, 0), c);
            var brief := BriefAfterAddAsWritten([(0, 0)], true, 0, c);
            Pairs(st.subfiles) == {(1, 1)} && brief == [(0, 0), (1, 1)] && !ListsExactly(brief, Pairs(st.subfiles))
  {
    var a, b := Subfile(0, 0, 1), Subfile(0, 1, 1);
    var st1 := AddToStore(Store(map[], 0, 0), a);
    assert Pairs(st1.subfiles) == {(0, 0)};
    assert !Stored(st1.subfiles, 0, 1) by {
      StoredIffPair(st1.subfiles, 0, 1);
    }
    var st2 := AddToStore(st1, b);
    assert (0, 1) in Pairs(st2.subfiles);
    var c := Subfile(1, 1, 1);
    var st := AddToStore(Store(map[], 0, 0), c);
    assert (0, 0) !in Pairs(st.subfiles);
  }

  class CSubfile {
    var id: Option<int>
    var subfileSet: SubfileSet
    var subfileSize: int
    var subfileCounter: int
    var subfileBrief: seq<(int, int)>
    /** True: the brief matches the stored pairs. */
    var subfileBriefUpToDate: bool

    ghost function Current(): Store
      reads this
    {
      Store(subfileSet, subfileSize, subfileCounter)
    }

    ghost predicate Valid()
      reads this
    {
      StoreInv(Current()) && (subfileBriefUpToDate ==> ListsExactly(subfileBrief, Pairs(subfileSet)))
    }

    /** A coded subfile with the given id, holding the given subfiles added in order. */
    constructor (id: Option<int>, subfiles: seq<Subfile>)
      ensures Valid() && this.id == id
      ensures Current() == AddAllToStore(Store(map[], 0, 0), subfiles)
    {
      this.id := id;
      subfileSet := map[];
      subfileSize := 0;
      subfileCounter := 0;
      subfileBrief := [];
      subfileBriefUpToDate := true;
      new;
      SetSubfileSet(subfiles);
    }

    /** clearSubfile: forget every pair; the size is kept; the (emptied) brief is current. */
    method ClearSubfile()
      modifies this
      ensures Valid() && id == old(id)
      ensures subfileSet == map[] && subfileCounter == 0 && subfileSize == old(subfileSize)
      ensures subfileBrief == [] && subfileBriefUpToDate
    {
      subfileBriefUpToDate := true;
      subfileBrief := [];
      subfileSet := map[];
      subfileCounter := 0;
    }

    /** setSubfileSet: clear, then add each subfile in order. */
    method SetSubfileSet(subfiles: seq<Subfile>)
      modifies this
      ensures Valid() && id == old(id)
      ensures Current() == AddAllToStore(Store(map[], old(subfileSize), 0), subfiles)
    {
      ClearSubfile();
      ghost var st0 := Current();
      var i := 0;
      while i < |subfiles|
        invariant 0 <= i <= |subfiles| && Valid() && id == old(id)
        invariant Current() == AddAllToStore(st0, subfiles[..i])
      {
        assert subfiles[..i + 1][..i] == subfiles[..i];
        AddSubfile(subfiles[i]);
        i := i + 1;
      }
      assert subfiles[..|subfiles|] == subfiles;
    }

    function GetSubfileCounter(): (c: int)
      requires Valid()
      reads this
      ensures c == |Pairs(subfileSet)|
    {
      subfileCounter
    }

    function GetSubfileSize(): (size: int)
      requires Valid()
      reads this
      ensures forall f, sf :: Stored(subfileSet, f, sf) ==> subfileSet[f][sf].subfileSize == size
    {
      subfileSize
    }

    function HasSubfile(f: int, sf: int): (b: bool)
      reads this
      ensures b <==> (f, sf) in Pairs(subfileSet)
    {
      StoredIffPair(subfileSet, f, sf);
      f in subfileSet && sf in subfileSet[f]
    }

    /**
     * addSubfile, with the brief kept current: a pair newly stored is
     * appended to a current brief.
     */
    method AddSubfile(sub: Subfile)
      requires Valid()
      modifies this
      ensures Valid() && id == old(id)
      ensures Current() == AddToStore(old(Current()), sub)
      ensures subfileBriefUpToDate == old(subfileBriefUpToDate)
      ensures subfileBrief == BriefAfterAdd(old(subfileBrief), old(subfileBriefUpToDate), old(Current()), sub)
    {
      AddKeepsBrief(Current(), subfileBrief, subfileBriefUpToDate, sub);
      AddSteps(sub);
    }

    /** The steps of addSubfile, which AddSubfile shows keep Valid(). */
    method AddSteps(sub: Subfile)
      modifies this
      ensures id == old(id) && subfileBriefUpToDate == old(subfileBriefUpToDate)
      ensures Current() == AddToStore(old(Current()), sub)
      ensures subfileBrief == BriefAfterAdd(old(subfileBrief), old(subfileBriefUpToDate), old(Current()), sub)
    {
      var fileId, subfileId := sub.fileId, sub.subfileId;
      var size := sub.subfileSize;
      if subfileCounter == 0 {
        subfileSize := size;
      } else if subfileSize != size {
        return;
      }
      if fileId in subfileSet {
        if subfileId in subfileSet[fileId] {
          return;
        } else {
          subfileSet := subfileSet[fileId := subfileSet[fileId][subfileId := sub]];
        }
      } else {
        subfileSet := subfileSet[fileId := map[subfileId := sub]];
      }
      subfileCounter := subfileCounter + 1;
      if subfileBriefUpToDate {
        subfileBrief := subfileBrief + [(fileId, subfileId)];
      }
    }

    /** delSubfile: a stored pair is removed and the brief marked stale. */
    method DelSubfile(f: int, sf: int)
      requires Valid()
      modifies this
      ensures Valid() && id == old(id)
      ensures Current() == DelFromStore(old(Current()), f, sf)
      ensures subfileBrief == old(subfileBrief)
      ensures subfileBriefUpToDate == (old(subfileBriefUpToDate) && !old(Stored(subfileSet, f, sf)))
    {
      DelFromStoreKeepsInv(Current(), f, sf);
      DelSteps(f, sf);
    }

    /** The steps of delSubfile, which DelSubfile shows keep Valid(). */
    method DelSteps(f: int, sf: int)
      modifies this
      ensures id == old(id) && subfileBrief == old(subfileBrief)
      ensures Current() == DelFromStore(old(Current()), f, sf)
      ensures subfileBriefUpToDate == (old(subfileBriefUpToDate) && !old(Stored(subfileSet, f, sf)))
    {
      if HasSubfile(f, sf) {
        subfileBriefUpToDate := false;
        subfileSet := Remove(subfileSet, f, sf);
        subfileCounter := subfileCounter - 1;
      }
      if subfileCounter <= 0 {
        subfileCounter := 0;
        subfileSize := 0;
      }
    }

    /** _updateSubfileBrief: a stale brief is rebuilt file by file from the map. */
    method UpdateSubfileBrief()
      requires Valid()
      modifies this`subfileBrief, this`subfileBriefUpToDate
      ensures Valid() && subfileBriefUpToDate
      ensures old(subfileBriefUpToDate) ==> subfileBrief == old(subfileBrief)
    {
      if !subfileBriefUpToDate {
        var brief := [];
        var files := subfileSet.Keys;
        while files != {}
          invariant files <= subfileSet.Keys
          invariant forall i, j :: 0 <= i < j < |brief| ==> brief[i] != brief[j]
          invariant forall x :: x in brief <==> x in Pairs(subfileSet) && x.0 !in files
          decreases |files|
        {
          ElementOrEmpty(files);
          var f :| f in files;
          var subs := subfileSet[f].Keys;
          while subs != {}
            invariant subs <= subfileSet[f].Keys
            invariant forall i, j :: 0 <= i < j < |brief| ==> brief[i] != brief[j]
            invariant forall x :: x in brief <==>
                        x in Pairs(subfileSet) && (x.0 !in files || (x.0 == f && x.1 !in subs))
            decreases |subs|
          {
            ElementOrEmpty(subs);
            var sf :| sf in subs;
            StoredIffPair(subfileSet, f, sf);
            brief := brief + [(f, sf)];
            subs := subs - {sf};
          }
          files := files - {f};
        }
        subfileBrief := brief;
      }
      subfileBriefUpToDate := true;
    }

    /** getSubfileBrief: rebuild a stale brief, then return it. */
    method GetSubfileBrief() returns (brief: seq<(int, int)>)
      requires Valid()
      modifies this`subfileBrief, this`subfileBriefUpToDate
      ensures Valid() && subfileBriefUpToDate && brief == subfileBrief
      ensures ListsExactly(brief, Pairs(subfileSet))
      ensures old(subfileBriefUpToDate) ==> brief == old(subfileBrief)
    {
      if !subfileBriefUpToDate {
        UpdateSubfileBrief();
      }
      return subfileBrief;
    }
  }
}
