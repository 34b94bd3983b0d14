/**
 * The records the coded-caching containers hold, and the two-level
 * fileId -> subfileId -> Subfile map shared by both coded-subfile classes.
 */
module Subfiles {

  /** A subfile: which file it belongs to, its index in that file, and its size. */
  datatype Subfile = Subfile(fileId: int, subfileId: int, subfileSize: int)

  /** What the cache and the bit sequence read from a coded subfile: its id and its size. */
  datatype CodedSubfileInfo = CodedSubfileInfo(id: int, subfileSize: int)

  /** First level: fileId; second level: subfileId. */
  type SubfileSet = map<int, map<int, Subfile>>

  /** The (fileId, subfileId) pairs stored in a two-level map. */
  ghost function Pairs(s: SubfileSet): set<(int, int)>
  {
    set f, sf | f in s && sf in s[f] :: (f, sf)
  }

  /** The pair is stored: the test both classes' hasSubfile perform. */
  predicate Stored(s: SubfileSet, f: int, sf: int)
  {
    f in s && sf in s[f]
  }

  lemma StoredIffPair(s: SubfileSet, f: int, sf: int)
    ensures Stored(s, f, sf) <==> (f, sf) in Pairs(s)
  {
    if (f, sf) in Pairs(s) {
      var f', sf' :| f' in s && sf' in s[f'] && (f', sf') == (f, sf);
    }
  }

  /**
   * The shape both classes keep: every stored subfile sits under its own
   * ids, and no per-file map is empty.
   */
  ghost predicate WellKeyed(s: SubfileSet)
  {
    (forall f :: f in s ==> |s[f]| > 0) &&
    (forall f, sf :: f in s && sf in s[f] ==> s[f][sf].fileId == f && s[f][sf].subfileId == sf)
  }

  /** A set of ids is empty or has a member (the witness every `:|` over keys needs). */
  lemma ElementOrEmpty(S: set<int>)
    ensures S == {} || exists y :: y in S
  {
    if forall y :: y !in S {
      assert S == {};
    }
  }

  /** Store sub under its own ids, creating the per-file map when the file is new. */
  function Insert(s: SubfileSet, sub: Subfile): SubfileSet
  {
    s[sub.fileId := (if sub.fileId in s then s[sub.fileId] else map[])[sub.subfileId := sub]]
  }

  /** Inserting stores exactly one more pair, keeps every file, and keeps the shape. */
  lemma InsertFacts(s: SubfileSet, sub: Subfile)
    ensures Pairs(Insert(s, sub)) == Pairs(s) + {(sub.fileId, sub.subfileId)}
    ensures forall f :: f in s ==> f in Insert(s, sub)
    ensures WellKeyed(s) ==> WellKeyed(Insert(s, sub))
  {
    var f, sf := sub.fileId, sub.subfileId;
    var inner := (if f in s then s[f] else map[])[sf := sub];
    var r := Insert(s, sub);
    assert sf in inner;
    forall x | x in Pairs(r)
      ensures x in Pairs(s) + {(f, sf)}
    {
      var f', sf' :| f' in r && sf' in r[f'] && x == (f', sf');
      if x != (f, sf) {
        assert f' in s && sf' in s[f'];
      }
    }
    forall x | x in Pairs(s) + {(f, sf)}
      ensures x in Pairs(r)
    {
      if x != (f, sf) {
        var f', sf' :| f' in s && sf' in s[f'] && x == (f', sf');
        assert f' in r && sf' in r[f'];
      } else {
        assert f in r && sf in r[f];
      }
    }
  }

  /** Pop the pair, and the per-file map as well once it becomes empty. */
  function Remove(s: SubfileSet, f: int, sf: int): (r: SubfileSet)
    requires Stored(s, f, sf)
    ensures Pairs(r) == Pairs(s) - {(f, sf)}
    ensures forall g :: g in r ==> g in s && r[g].Keys <= s[g].Keys
    ensures forall g, x :: g in r && x in r[g] ==> r[g][x] == s[g][x]
    ensures WellKeyed(s) ==> WellKeyed(r)
  {
    var inner := s[f] - {sf};
    var r := if |inner| == 0 then s - {f} else s[f := inner];
    assert Pairs(r) == Pairs(s) - {(f, sf)} by {
      forall x | x in Pairs(r)
        ensures x in Pairs(s) - {(f, sf)}
      {
        var f', sf' :| f' in r && sf' in r[f'] && x == (f', sf');
        assert f' in s && sf' in s[f'];
      }
      forall x | x in Pairs(s) - {(f, sf)}
        ensures x in Pairs(r)
      {
        var f', sf' :| f' in s && sf' in s[f'] && x == (f', sf');
        if f' == f {
          assert sf' in inner;
        }
        assert f' in r && sf' in r[f'];
      }
    }
    r
  }
}
