/**
 * The older coded subfile (CSubfile.py at the repository root): the same
 * two-level fileId -> subfileId -> Subfile map with a counter, but with no
 * common size, no brief, and a setSubfileSet that adds on top of what is
 * already stored.
 */
module LegacyCSubfile {
  import opened Wrappers
  import opened Subfiles

  datatype Store = Store(subfiles: SubfileSet, counter: int)

  ghost predicate StoreInv(st: Store)
  {
    WellKeyed(st.subfiles) && st.counter == |Pairs(st.subfiles)|
  }

  /** addSubfile: a new pair is stored and counted; a stored pair is left alone. */
  function AddToStore(st: Store, sub: Subfile): (r: Store)
    ensures (sub.fileId, sub.subfileId) in Pairs(r.subfiles)
    ensures Stored(st.subfiles, sub.fileId, sub.subfileId) ==> r == st
    ensures !Stored(st.subfiles, sub.fileId, sub.subfileId) ==>
              Pairs(r.subfiles) == Pairs(st.subfiles) + {(sub.fileId, sub.subfileId)} && r.counter == st.counter + 1
  {
    StoredIffPair(st.subfiles, sub.fileId, sub.subfileId);
    InsertFacts(st.subfiles, sub);
    if Stored(st.subfiles, sub.fileId, sub.subfileId) then st
    else Store(Insert(st.subfiles, sub), st.counter + 1)
  }

  /** delSubfile: a stored pair is removed and uncounted; an absent pair changes nothing. */
  function DelFromStore(st: Store, f: int, sf: int): (r: Store)
    ensures (f, sf) !in Pairs(r.subfiles)
    ensures !Stored(st.subfiles, f, sf) ==> r == st
    ensures Stored(st.subfiles, f, sf) ==>
              Pairs(r.subfiles) == Pairs(st.subfiles) - {(f, sf)} && r.counter == st.counter - 1
  {
    StoredIffPair(st.subfiles, f, sf);
    if Stored(st.subfiles, f, sf) then Store(Remove(st.subfiles, f, sf), st.counter - 1) else st
  }

  /** setSubfileSet: addSubfile for each subfile in order, on top of the current contents. */
  function AddAllToStore(st: Store, subs: seq<Subfile>): Store
  {
    if |subs| == 0 then st else AddToStore(AddAllToStore(st, subs[..|subs| - 1]), subs[|subs| - 1])
  }

  lemma AddToStoreKeepsInv(st: Store, sub: Subfile)
    requires StoreInv(st)
    ensures StoreInv(AddToStore(st, sub))
  {
    StoredIffPair(st.subfiles, sub.fileId, sub.subfileId);
    InsertFacts(st.subfiles, sub);
  }

  lemma DelFromStoreKeepsInv(st: Store, f: int, sf: int)
    requires StoreInv(st)
    ensures StoreInv(DelFromStore(st, f, sf))
  {
    StoredIffPair(st.subfiles, f, sf);
  }

  lemma {:induction false} AddAllToStoreKeepsInv(st: Store, subs: seq<Subfile>)
    requires StoreInv(st)
    ensures StoreInv(AddAllToStore(st, subs))
  {
    if |subs| > 0 {
      AddAllToStoreKeepsInv(st, subs[..|subs| - 1]);
      AddToStoreKeepsInv(AddAllToStore(st, subs[..|subs| - 1]), subs[|subs| - 1]);
    }
  }

  /** The (fileId, subfileId) pairs of a list of subfiles. */
  ghost function ListPairs(subs: seq<Subfile>): set<(int, int)>
  {
    set i | 0 <= i < |subs| :: (subs[i].fileId, subs[i].subfileId)
  }

  /** Adding a list on top keeps every pair already stored, and stores every pair of the list. */
  lemma {:induction false} AddAllToStoreContents(st: Store, subs: seq<Subfile>)
    ensures Pairs(AddAllToStore(st, subs).subfiles) == Pairs(st.subfiles) + ListPairs(subs)
  {
    if |subs| > 0 {
      var init := subs[..|subs| - 1];
      AddAllToStoreContents(st, init);
      var last := subs[|subs| - 1];
      var before := AddAllToStore(st, init);
      StoredIffPair(before.subfiles, last.fileId, last.subfileId);
      assert ListPairs(subs) == ListPairs(init) + {(last.fileId, last.subfileId)} by {
        forall x | x in ListPairs(subs)
          ensures x in ListPairs(init) + {(last.fileId, last.subfileId)}
        {
          var i :| 0 <= i < |subs| && x == (subs[i].fileId, subs[i].subfileId);
          if i < |init| {
            assert init[i] == subs[i];
          }
        }
        forall x | x in ListPairs(init)
          ensures x in ListPairs(subs)
        {
          var i :| 0 <= i < |init| && x == (init[i].fileId, init[i].subfileId);
          assert subs[i] == init[i];
        }
      }
    }
  }

  datatype Edit = AddEdit(sub: Subfile) | DelEdit(fileId: int, subfileId: int)

  function Replay(st: Store, edits: seq<Edit>): Store
  {
    if |edits| == 0 then st
    else
      var st' := Replay(st, edits[..|edits| - 1]);
      match edits[|edits| - 1]
      case AddEdit(sub) => AddToStore(st', sub)
      case DelEdit(f, sf) => DelFromStore(st', f, sf)
  }

  lemma {:induction false} ReplayKeepsInv(st: Store, edits: seq<Edit>)
    requires StoreInv(st)
    ensures StoreInv(Replay(st, edits))
  {
    if |edits| > 0 {
      ReplayKeepsInv(st, edits[..|edits| - 1]);
      var st' := Replay(st, edits[..|edits| - 1]);
      match edits[|edits| - 1]
      case AddEdit(sub) => AddToStoreKeepsInv(st', sub);
      case DelEdit(f, sf) => DelFromStoreKeepsInv(st', f, sf);
    }
  }

  /** From an empty coded subfile, any sequence of adds and deletes keeps the counter equal to the number of stored pairs. */
  lemma {:induction false} ReplayKeepsCount(edits: seq<Edit>)
    ensures var st := Replay(Store(map[], 0), edits);
            st.counter == |Pairs(st.subfiles)|
  {
    ReplayKeepsInv(Store(map[], 0), edits);
  }

  class CSubfile {
    var id: Option<int>
    var subfileSet: SubfileSet
    var subfileCounter: int

    ghost function Current(): Store
      reads this
    {
      Store(subfileSet, subfileCounter)
    }

    ghost predicate Valid()
      reads this
    {
      StoreInv(Current())
    }

    /** A coded subfile with the given id, holding the given subfiles added in order. */
    constructor (id: Option<int>, subfiles: seq<Subfile>)
      ensures Valid() && this.id == id
      ensures Current() == AddAllToStore(Store(map[], 0), subfiles)
    {
      this.id := id;
      subfileSet := map[];
      subfileCounter := 0;
      new;
      SetSubfileSet(subfiles);
    }

    /** setSubfileSet: add each subfile in order, without clearing first. */
    method SetSubfileSet(subfiles: seq<Subfile>)
      requires Valid()
      modifies this
      ensures Valid() && id == old(id)
      ensures Current() == AddAllToStore(old(Current()), subfiles)
    {
      ghost var st0 := Current();
      var i := 0;
      while i < |subfiles|
        invariant 0 <= i <= |subfiles| && Valid() && id == old(id)
        invariant Current() == AddAllToStore(st0, subfiles[..i])
      {
        assert subfiles[..i + 1][..i] == subfiles[..i];
        AddSubfile(subfiles[i]);
        i := i + 1;
      }
      assert subfiles[..|subfiles|] == subfiles;
    }

    function GetSubfileCounter(): (c: int)
      requires Valid()
      reads this
      ensures c == |Pairs(subfileSet)|
    {
      subfileCounter
    }

    function HasSubfile(f: int, sf: int): (b: bool)
      reads this
      ensures b <==> (f, sf) in Pairs(subfileSet)
    {
      StoredIffPair(subfileSet, f, sf);
      f in subfileSet && sf in subfileSet[f]
    }

    method AddSubfile(sub: Subfile)
      requires Valid()
      modifies this
      ensures Valid() && id == old(id)
      ensures Current() == AddToStore(old(Current()), sub)
    {
      AddToStoreKeepsInv(Current(), sub);
      var fileId, subfileId := sub.fileId, sub.subfileId;
      if fileId in subfileSet {
        if subfileId in subfileSet[fileId] {
          return;
        } else {
          subfileSet := subfileSet[fileId := subfileSet[fileId][subfileId := sub]];
        }
      } else {
        subfileSet := subfileSet[fileId := map[subfileId := sub]];
      }
      subfileCounter := subfileCounter + 1;
    }

    method DelSubfile(f: int, sf: int)
      requires Valid()
      modifies this
      ensures Valid() && id == old(id)
      ensures Current() == DelFromStore(old(Current()), f, sf)
    {
      DelFromStoreKeepsInv(Current(), f, sf);
      if HasSubfile(f, sf) {
        subfileSet := Remove(subfileSet, f, sf);
        subfileCounter := subfileCounter - 1;
      }
    }
  }
}
