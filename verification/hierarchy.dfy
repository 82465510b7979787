/** Stage 2, `build_committee_hierarchy_map`: one synthetic "MAIN" row per
    committee and one row per subcommittee, duplicates dropped, sorted by
    (file_committee_abbrev, committee_code, subcommittee_code). */
module Hierarchy {
  import opened Wrappers
  import opened Table
  import opened Roster

  /** One row of the hierarchy table. */
  datatype HierarchyRow = HierarchyRow(
    fileCommitteeAbbrev: string,
    committeeCode: Cell,
    committeeName: Cell,
    subcommitteeCode: Cell,
    subcommitteeName: Cell,
    level: string)

  /** The sentinel subcommittee code of a committee's own row. */
  const MainCode: string := "MAIN"
  /** The subcommittee name and level of a committee's own row. */
  const MainCommitteeLabel: string := "Main Committee"
  /** The level of a subcommittee row. */
  const SubcommitteeLabel: string := "Subcommittee"

  /** The sort key of the hierarchy table. */
  function HierarchyKey(h: HierarchyRow): Key {
    [Some(h.fileCommitteeAbbrev), h.committeeCode, h.subcommitteeCode]
  }

  /** The row standing for committee `c` itself. */
  function MainRow(abbrev: string, c: Committee): HierarchyRow {
    HierarchyRow(abbrev, c.code, c.name, Some(MainCode), Some(MainCommitteeLabel), MainCommitteeLabel)
  }

  /** The row of subcommittee `s` of `c`. */
  function SubRow(abbrev: string, c: Committee, s: Subcommittee): HierarchyRow {
    HierarchyRow(abbrev, c.code, c.name, s.code, s.name, SubcommitteeLabel)
  }

  /** The rows one `committees` element contributes: its main row first,
      then one row per subcommittee, members or not. */
  function CommitteeHierarchy(abbrev: string, c: Committee): (r: seq<HierarchyRow>)
    ensures |r| == 1 + |c.subcommittees|
    ensures forall i :: 0 <= i < |r| ==>
              r[i].fileCommitteeAbbrev == abbrev && r[i].committeeCode == c.code
              && r[i].committeeName == c.name
    ensures r[0].subcommitteeCode == Some(MainCode)
            && r[0].subcommitteeName == Some(MainCommitteeLabel)
            && r[0].level == MainCommitteeLabel
    ensures forall i :: 1 <= i < |r| ==>
              r[i].subcommitteeCode == c.subcommittees[i - 1].code
              && r[i].subcommitteeName == c.subcommittees[i - 1].name
              && r[i].level == SubcommitteeLabel
  {
    var subs := c.subcommittees;
    [MainRow(abbrev, c)] + seq(|subs|, i requires 0 <= i < |subs| => SubRow(abbrev, c, subs[i]))
  }

  function CommitteesHierarchy(abbrev: string, cs: seq<Committee>): (r: seq<HierarchyRow>)
    ensures |r| == CommitteesRowCount(cs)
  {
    if |cs| == 0 then [] else CommitteeHierarchy(abbrev, cs[0]) + CommitteesHierarchy(abbrev, cs[1..])
  }

  /** The hierarchy rows of one listed file: none when it did not parse. */
  function FileHierarchy(o: Option<Document>): (r: seq<HierarchyRow>)
    ensures o.None? ==> r == []
    ensures o.Some? ==> |r| == CommitteesRowCount(o.value.committees)
  {
    match o
    case None => []
    case Some(d) => CommitteesHierarchy(FileAbbrev(d.path), d.committees)
  }

  /** The hierarchy rows of all files, before dropping duplicates. */
  function CorpusHierarchy(docs: Corpus): (r: seq<HierarchyRow>)
    ensures |r| == CorpusRowCount(docs)
  {
    if |docs| == 0 then [] else FileHierarchy(docs[0]) + CorpusHierarchy(docs[1..])
  }

  /** One row per committee plus one per subcommittee, as a reference for
      the length of the raw table. */
  function CommitteesRowCount(cs: seq<Committee>): nat {
    if |cs| == 0 then 0 else 1 + |cs[0].subcommittees| + CommitteesRowCount(cs[1..])
  }

  function CorpusRowCount(docs: Corpus): nat {
    if |docs| == 0 then 0
    else (if docs[0].Some? then CommitteesRowCount(docs[0].value.committees) else 0)
         + CorpusRowCount(docs[1..])
  }

  /** `build_committee_hierarchy_map()`. */
  function BuildCommitteeHierarchyMap(docs: Corpus): (r: seq<HierarchyRow>)
    ensures NoDup(r)
    ensures forall h :: h in r <==> h in CorpusHierarchy(docs)
    ensures Sorted(r, HierarchyKey)
    ensures |r| <= CorpusRowCount(docs)
  {
    var raw := CorpusHierarchy(docs);
    var unique := DropDuplicates(raw);
    var r := SortBy(unique, HierarchyKey);
    NoDupPermutation(unique, r);
    assert |r| == |multiset(r)| == |multiset(unique)| == |unique|;
    assert forall h :: h in r <==> h in multiset(unique);
    r
  }

  // ---------------------------------------------------------------------
  // Skipping unparseable files
  // ---------------------------------------------------------------------

  lemma {:induction false} CorpusHierarchyAppend(a: Corpus, b: Corpus)
    ensures CorpusHierarchy(a + b) == CorpusHierarchy(a) + CorpusHierarchy(b)
  {
    if |a| > 0 {
      assert (a + b)[0] == a[0];
      assert (a + b)[1..] == a[1..] + b;
      CorpusHierarchyAppend(a[1..], b);
      var x := FileHierarchy(a[0]);
      calc {
        CorpusHierarchy(a + b);
        x + CorpusHierarchy(a[1..] + b);
        x + (CorpusHierarchy(a[1..]) + CorpusHierarchy(b));
        { SeqAppendAssoc(x, CorpusHierarchy(a[1..]), CorpusHierarchy(b)); }
        (x + CorpusHierarchy(a[1..])) + CorpusHierarchy(b);
        CorpusHierarchy(a) + CorpusHierarchy(b);
      }
    } else {
      assert a + b == b;
    }
  }

  lemma {:induction false} UnparseableFileHierarchyRows(a: Corpus, b: Corpus)
    ensures CorpusHierarchy(a + [None] + b) == CorpusHierarchy(a + b)
  {
    var skipped: Corpus := [None];
    assert CorpusHierarchy(skipped) == [] by {
      assert skipped[1..] == [];
    }
    CorpusHierarchyAppend(a + skipped, b);
    CorpusHierarchyAppend(a, skipped);
    CorpusHierarchyAppend(a, b);
    assert a + [None] + b == (a + skipped) + b;
  }

  /** A file that fails to parse changes nothing in the hierarchy table. */
  lemma {:induction false} UnparseableFileIgnoredByHierarchy(a: Corpus, b: Corpus)
    ensures BuildCommitteeHierarchyMap(a + [None] + b) == BuildCommitteeHierarchyMap(a + b)
  {
    UnparseableFileHierarchyRows(a, b);
  }

  // ---------------------------------------------------------------------
  // Which rows the table holds
  // ---------------------------------------------------------------------

  /** `h` is the main row or a subcommittee row of a committee of a file
      that parsed. */
  ghost predicate HierarchyRowOfCorpus(h: HierarchyRow, docs: Corpus) {
    exists d :: Some(d) in docs && HierarchyRowOfDocument(h, d)
  }

  /** `h` is the main row or a subcommittee row of a committee of `d`. */
  ghost predicate HierarchyRowOfDocument(h: HierarchyRow, d: Document) {
    exists c :: c in d.committees && HierarchyRowOfCommittee(h, FileAbbrev(d.path), c)
  }

  /** `h` is the main row of `c` or the row of one of its subcommittees. */
  ghost predicate HierarchyRowOfCommittee(h: HierarchyRow, abbrev: string, c: Committee) {
    || h == MainRow(abbrev, c)
    || exists s :: s in c.subcommittees && h == SubRow(abbrev, c, s)
  }

  lemma {:induction false} CommitteesHierarchyComplete(abbrev: string, cs: seq<Committee>, c: Committee)
    requires c in cs
    ensures MainRow(abbrev, c) in CommitteesHierarchy(abbrev, cs)
    ensures forall s :: s in c.subcommittees ==> SubRow(abbrev, c, s) in CommitteesHierarchy(abbrev, cs)
  {
    var here := CommitteeHierarchy(abbrev, cs[0]);
    if cs[0] == c {
      assert here[0] == MainRow(abbrev, c);
      forall s | s in c.subcommittees
        ensures SubRow(abbrev, c, s) in here
      {
        var i :| 0 <= i < |c.subcommittees| && c.subcommittees[i] == s;
        assert here[i + 1] == SubRow(abbrev, c, s);
      }
    } else {
      CommitteesHierarchyComplete(abbrev, cs[1..], c);
    }
  }

  /** A row a parsed file contributes is a row of the raw table. */
  lemma {:induction false} FileRowsInCorpus(docs: Corpus, d: Document, h: HierarchyRow)
    requires Some(d) in docs && h in CommitteesHierarchy(FileAbbrev(d.path), d.committees)
    ensures h in CorpusHierarchy(docs)
  {
    if docs[0] != Some(d) {
      FileRowsInCorpus(docs[1..], d, h);
    }
  }

  /** Every row a parsed file contributes (the main row of each of its
      committees and the row of each subcommittee, whether or not it lists
      members) is in the finished table. */
  lemma {:induction false} HierarchyMapComplete(docs: Corpus, d: Document, h: HierarchyRow)
    requires Some(d) in docs && h in CommitteesHierarchy(FileAbbrev(d.path), d.committees)
    ensures h in BuildCommitteeHierarchyMap(docs)
  {
    FileRowsInCorpus(docs, d, h);
  }

  lemma {:induction false} CommitteesHierarchySound(abbrev: string, cs: seq<Committee>, h: HierarchyRow)
    requires h in CommitteesHierarchy(abbrev, cs)
    ensures exists c :: c in cs && HierarchyRowOfCommittee(h, abbrev, c)
  {
    var here := CommitteeHierarchy(abbrev, cs[0]);
    if h in here {
      var i :| 0 <= i < |here| && here[i] == h;
      if i > 0 {
        assert cs[0].subcommittees[i - 1] in cs[0].subcommittees;
        assert h == SubRow(abbrev, cs[0], cs[0].subcommittees[i - 1]);
      }
      assert HierarchyRowOfCommittee(h, abbrev, cs[0]);
    } else {
      CommitteesHierarchySound(abbrev, cs[1..], h);
      var c :| c in cs[1..] && HierarchyRowOfCommittee(h, abbrev, c);
      assert c in cs;
    }
  }

  lemma {:induction false} CorpusHierarchySound(docs: Corpus, h: HierarchyRow)
    requires h in CorpusHierarchy(docs)
    ensures HierarchyRowOfCorpus(h, docs)
  {
    if h in FileHierarchy(docs[0]) {
      var d := docs[0].value;
      CommitteesHierarchySound(FileAbbrev(d.path), d.committees, h);
      assert HierarchyRowOfDocument(h, d);
      assert Some(d) in docs;
    } else {
      CorpusHierarchySound(docs[1..], h);
      var d :| Some(d) in docs[1..] && HierarchyRowOfDocument(h, d);
      assert Some(d) in docs;
    }
  }

  /** Every row of the table is the main row or a subcommittee row of a
      committee of a file that parsed. */
  lemma {:induction false} HierarchyMapSound(docs: Corpus)
    ensures forall h :: h in BuildCommitteeHierarchyMap(docs) ==> HierarchyRowOfCorpus(h, docs)
  {
    forall h | h in BuildCommitteeHierarchyMap(docs)
      ensures HierarchyRowOfCorpus(h, docs)
    {
      CorpusHierarchySound(docs, h);
    }
  }

  /** Dropping whole-row duplicates does not make the key unique: two
      subcommittees sharing a code under different names both keep a row,
      and the two rows have the same key. */
  lemma {:induction false} HierarchyKeysMayRepeat(docs: Corpus, d: Document, c: Committee, s1: Subcommittee, s2: Subcommittee)
    requires Some(d) in docs && c in d.committees
    requires s1 in c.subcommittees && s2 in c.subcommittees
    requires s1.code == s2.code && s1.name != s2.name
    ensures var h1 := SubRow(FileAbbrev(d.path), c, s1);
            var h2 := SubRow(FileAbbrev(d.path), c, s2);
            && h1 in BuildCommitteeHierarchyMap(docs) && h2 in BuildCommitteeHierarchyMap(docs)
            && h1 != h2 && HierarchyKey(h1) == HierarchyKey(h2)
  {
    var abbrev := FileAbbrev(d.path);
    CommitteesHierarchyComplete(abbrev, d.committees, c);
    HierarchyMapComplete(docs, d, SubRow(abbrev, c, s1));
    HierarchyMapComplete(docs, d, SubRow(abbrev, c, s2));
  }
}
