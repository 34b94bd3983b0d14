/**
 * The server's transmission (CodedCaching/BitSequence.py): coded subfiles
 * keyed by their id, with a counter of the stored ids.  Adding an id
 * already present replaces its value.
 */
module BitSequence {
  import opened Subfiles

  datatype Store = Store(dict: map<int, CodedSubfileInfo>, counter: int)

  ghost predicate StoreInv(st: Store)
  {
    st.counter == |st.dict|
  }

  /** addCodedSubfile: store c under its own id; count it only when the id is new. */
  function AddToStore(st: Store, c: CodedSubfileInfo): (r: Store)
    ensures r.dict == st.dict[c.id := c]
    ensures r.counter == st.counter + (if c.id in st.dict then 0 else 1)
  {
    if c.id !in st.dict then Store(st.dict[c.id := c], st.counter + 1)
    else Store(st.dict[c.id := c], st.counter)
  }

  /** delCodedSubfile: a stored id is removed and uncounted; an absent id changes nothing. */
  function DelFromStore(st: Store, id: int): (r: Store)
    ensures r.dict == st.dict - {id}
    ensures r.counter == st.counter - (if id in st.dict then 1 else 0)
  {
    if id in st.dict then Store(st.dict - {id}, st.counter - 1) else st
  }

  /**
   * setCodedSubfileDict: the argument's entries, in the argument's order;
   * each value is added under its own id, whatever key the argument gave it.
   */
  function AddAllToStore(st: Store, entries: seq<(int, CodedSubfileInfo)>): Store
  {
    if |entries| == 0 then st else AddToStore(AddAllToStore(st, entries[..|entries| - 1]), entries[|entries| - 1].1)
  }

  lemma AddToStoreKeepsInv(st: Store, c: CodedSubfileInfo)
    requires StoreInv(st)
    ensures StoreInv(AddToStore(st, c))
  {
  }

  lemma DelFromStoreKeepsInv(st: Store, id: int)
    requires StoreInv(st)
    ensures StoreInv(DelFromStore(st, id))
  {
  }

  lemma {:induction false} AddAllToStoreKeepsInv(st: Store, entries: seq<(int, CodedSubfileInfo)>)
    requires StoreInv(st)
    ensures StoreInv(AddAllToStore(st, entries))
  {
    if |entries| > 0 {
      AddAllToStoreKeepsInv(st, entries[..|entries| - 1]);
      AddToStoreKeepsInv(AddAllToStore(st, entries[..|entries| - 1]), entries[|entries| - 1].1);
    }
  }

  /** The ids of the values of a list of entries (not their keys). */
  ghost function ValueIds(entries: seq<(int, CodedSubfileInfo)>): set<int>
  {
    set i | 0 <= i < |entries| :: entries[i].1.id
  }

  /**
   * After setCodedSubfileDict the stored ids are the old ones plus the ids of
   * the given values; nothing is cleared, and every value sits under its own id.
   */
  lemma {:induction false} AddAllToStoreKeys(st: Store, entries: seq<(int, CodedSubfileInfo)>)
    requires forall k :: k in st.dict ==> st.dict[k].id == k
    ensures var r := AddAllToStore(st, entries);
            r.dict.Keys == st.dict.Keys + ValueIds(entries) &&
            forall k :: k in r.dict ==> r.dict[k].id == k
  {
    if |entries| > 0 {
      var init := entries[..|entries| - 1];
      AddAllToStoreKeys(st, init);
      assert ValueIds(entries) == ValueIds(init) + {entries[|entries| - 1].1.id} by {
        forall x | x in ValueIds(entries)
          ensures x in ValueIds(init) + {entries[|entries| - 1].1.id}
        {
          var i :| 0 <= i < |entries| && x == entries[i].1.id;
          if i < |init| {
            assert init[i] == entries[i];
          }
        }
        forall x | x in ValueIds(init)
          ensures x in ValueIds(entries)
        {
          var i :| 0 <= i < |init| && x == init[i].1.id;
          assert entries[i] == init[i];
        }
      }
    }
  }

  /** An edit a caller may make: add a coded subfile, or delete an id. */
  datatype Edit = AddEdit(c: CodedSubfileInfo) | DelEdit(id: int)

  function Replay(st: Store, edits: seq<Edit>): Store
  {
    if |edits| == 0 then st
    else
      var st' := Replay(st, edits[..|edits| - 1]);
      match edits[|edits| - 1]
      case AddEdit(c) => AddToStore(st', c)
      case DelEdit(id) => DelFromStore(st', id)
  }

  /** From an empty bit sequence, the counter equals the number of stored ids after any adds and deletes. */
  lemma {:induction false} ReplayKeepsCount(edits: seq<Edit>)
    ensures var st := Replay(Store(map[], 0), edits);
            st.counter == |st.dict|
  {
    if |edits| > 0 {
      ReplayKeepsCount(edits[..|edits| - 1]);
      var st' := Replay(Store(map[], 0), edits[..|edits| - 1]);
      match edits[|edits| - 1]
      case AddEdit(c) => AddToStoreKeepsInv(st', c);
      case DelEdit(id) => DelFromStoreKeepsInv(st', id);
    }
  }

  class BitSequence {
    var codedSubfileDict: map<int, CodedSubfileInfo>
    var codedSubfileCounter: int

    ghost function Current(): Store
      reads this
    {
      Store(codedSubfileDict, codedSubfileCounter)
    }

    ghost predicate Valid()
      reads this
    {
      StoreInv(Current())
    }

    /** A bit sequence holding the values of the given entries. */
    constructor (entries: seq<(int, CodedSubfileInfo)>)
      ensures Valid()
      ensures Current() == AddAllToStore(Store(map[], 0), entries)
    {
      codedSubfileDict := map[];
      codedSubfileCounter := 0;
      new;
      SetCodedSubfileDict(entries);
    }

    /** setCodedSubfileDict: add every value, in order, without clearing first. */
    method SetCodedSubfileDict(entries: seq<(int, CodedSubfileInfo)>)
      modifies this
      ensures Current() == AddAllToStore(old(Current()), entries)
      ensures old(Valid()) ==> Valid()
    {
      ghost var st0 := Current();
      var i := 0;
      while i < |entries|
        invariant 0 <= i <= |entries|
        invariant Current() == AddAllToStore(st0, entries[..i])
      {
        assert entries[..i + 1][..i] == entries[..i];
        AddCodedSubfile(entries[i].1);
        i := i + 1;
      }
      assert entries[..|entries|] == entries;
      if StoreInv(st0) {
        AddAllToStoreKeepsInv(st0, entries);
      }
    }

    function HasCodedSubfile(id: int): (b: bool)
      reads this
      ensures b <==> id in codedSubfileDict.Keys
    {
      id in codedSubfileDict
    }

    method AddCodedSubfile(c: CodedSubfileInfo)
      modifies this
      ensures Current() == AddToStore(old(Current()), c)
      ensures old(Valid()) ==> Valid()
    {
      var id := c.id;
      if !HasCodedSubfile(id) {
        codedSubfileDict := codedSubfileDict[id := c];
        codedSubfileCounter := codedSubfileCounter + 1;
      } else {
        codedSubfileDict := codedSubfileDict[id := c];
      }
    }

    method DelCodedSubfile(id: int)
      modifies this
      ensures Current() == DelFromStore(old(Current()), id)
      ensures old(Valid()) ==> Valid()
    {
      if HasCodedSubfile(id) {
        codedSubfileDict := codedSubfileDict - {id};
        codedSubfileCounter := codedSubfileCounter - 1;
      }
    }
  }
}
