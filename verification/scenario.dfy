/** The one-committee example of the roster format: committee "Banking"
    (code SSBK) with direct member Jane Doe and subcommittee "Housing" (code
    SSBK01) with member Tom Lee. */
module Scenario {
  import opened Wrappers
  import opened Text
  import opened Table
  import opened Roster
  import opened Members
  import opened Hierarchy
  import opened Merge

  const Jane: Member := Member(Some("Jane"), Some("Doe"), None, None, None)
  const Tom: Member := Member(Some("Tom"), Some("Lee"), None, None, None)
  const Housing: Subcommittee := Subcommittee(Some("Housing"), Some("SSBK01"), Some([Tom]))
  const Banking: Committee := Committee(Some("Banking"), Some("SSBK"), None, Some([Jane]), [Housing])
  const BankingFile: Document := Document("committee_memberships_SSBK.xml", [Banking])
  const BankingCorpus: Corpus := [Some(BankingFile)]

  lemma {:induction false} BankingAbbrev()
    ensures FileAbbrev(BankingFile.path) == "SSBK"
  {
    assert BankingFile.path == FilePrefix + "SSBK" + FileSuffix;
    RosterFileAbbrev("SSBK");
  }

  lemma {:induction false} TomLeeFullName()
    ensures FullName(Tom.first, Tom.last) == Some("Tom Lee")
  {
    FullNameOfUnpadded("Tom", "Lee");
    assert "Tom" + " " + "Lee" == "Tom Lee";
  }

  lemma {:induction false} HousingAfterMain()
    ensures !StrLe("SSBK01", MainCode)
  {
    assert "SSBK01"[0] == 'S' && MainCode[0] == 'M';
  }

  // ---------------------------------------------------------------------
  // Any file holding one committee with one direct member and one
  // single-member subcommittee
  // ---------------------------------------------------------------------

  ghost predicate SmallRoster(d: Document, c: Committee, j: Member, s: Subcommittee, t: Member) {
    && d.committees == [c]
    && c.members == Some([j]) && c.subcommittees == [s] && s.members == Some([t])
  }

  lemma {:induction false} SmallRosterCommitteeRows(a: string, f: string, c: Committee, j: Member, s: Subcommittee, t: Member)
    requires c.members == Some([j]) && c.subcommittees == [s] && s.members == Some([t])
    ensures CommitteeRows(a, f, c) == [RowFor(a, f, c, None, None, j), RowFor(a, f, c, s.name, s.code, t)]
  {
    var direct := DirectRows(a, f, c);
    assert |direct| == 1 && direct[0] == RowFor(a, f, c, None, None, j);
    var sub := SubcommitteeRows(a, f, c, s);
    assert |sub| == 1 && sub[0] == RowFor(a, f, c, s.name, s.code, t);
    var subs := c.subcommittees;
    assert subs[0] == s && subs[1..] == [];
    assert SubcommitteesRows(a, f, c, subs) == sub + SubcommitteesRows(a, f, c, []);
  }

  lemma {:induction false} SingletonCorpusRows(d: Document)
    ensures CorpusRows([Some(d)]) == DocumentRows(d)
  {
    var corpus: Corpus := [Some(d)];
    assert corpus[1..] == [];
  }

  lemma {:induction false} SingletonCommitteesRows(a: string, f: string, c: Committee)
    ensures CommitteesRows(a, f, [c]) == CommitteeRows(a, f, c)
  {
    assert [c][1..] == [];
  }

  lemma {:induction false} SingleFileRows(d: Document, c: Committee)
    requires d.committees == [c]
    ensures CorpusRows([Some(d)]) == CommitteeRows(FileAbbrev(d.path), SourceFile(d.path), c)
  {
    SingletonCorpusRows(d);
    SingletonCommitteesRows(FileAbbrev(d.path), SourceFile(d.path), c);
  }

  lemma {:induction false} SingletonCorpusHierarchy(d: Document)
    ensures CorpusHierarchy([Some(d)]) == FileHierarchy(Some(d))
  {
    var corpus: Corpus := [Some(d)];
    assert corpus[1..] == [];
  }

  lemma {:induction false} SingletonCommitteesHierarchy(a: string, c: Committee)
    ensures CommitteesHierarchy(a, [c]) == CommitteeHierarchy(a, c)
  {
    assert [c][1..] == [];
  }

  lemma {:induction false} SingleFileHierarchy(d: Document, c: Committee)
    requires d.committees == [c]
    ensures CorpusHierarchy([Some(d)]) == CommitteeHierarchy(FileAbbrev(d.path), c)
  {
    SingletonCorpusHierarchy(d);
    SingletonCommitteesHierarchy(FileAbbrev(d.path), c);
  }

  lemma {:induction false} SingleSubcommitteeHierarchy(a: string, c: Committee, s: Subcommittee)
    requires c.subcommittees == [s]
    ensures CommitteeHierarchy(a, c) == [MainRow(a, c), SubRow(a, c, s)]
  {
    var h := CommitteeHierarchy(a, c);
    assert |h| == 2;
    assert h[1] == SubRow(a, c, s);
  }

  lemma {:induction false} PairNoDup<T>(x: T, y: T)
    requires x != y
    ensures NoDup([x, y])
  {
  }

  /** Two rows, in the order `t0`, `t1`, when `t1`'s key is not at most
      `t0`'s: a sorted permutation has no other choice. */
  lemma {:induction false} SortedPair<T>(t: seq<T>, key: T -> Key, t0: T, t1: T)
    requires multiset(t) == multiset{t0, t1}
    requires Sorted(t, key)
    requires !KeyLe(key(t1), key(t0))
    ensures t == [t0, t1]
  {
    assert |t| == |multiset(t)| == 2;
    assert t == [t[0], t[1]];
    assert multiset{t[0], t[1]} == multiset{t0, t1};
    assert KeyLe(key(t[0]), key(t[1]));
  }

  lemma {:induction false} SmallRosterRawRows(d: Document, c: Committee, j: Member, s: Subcommittee, t: Member)
    requires SmallRoster(d, c, j, s, t)
    ensures var a := FileAbbrev(d.path);
            var f := SourceFile(d.path);
            CorpusRows([Some(d)]) == [RowFor(a, f, c, None, None, j), RowFor(a, f, c, s.name, s.code, t)]
  {
    SingleFileRows(d, c);
    SmallRosterCommitteeRows(FileAbbrev(d.path), SourceFile(d.path), c, j, s, t);
  }

  lemma {:induction false} LoadOfTwoRows(docs: Corpus, x: MemberRow, y: MemberRow)
    requires CorpusRows(docs) == [y, x]
    requires !KeyLe(MemberKey(y), MemberKey(x))
    ensures LoadCommitteeMemberships(docs) == [x, y]
  {
    assert multiset([y, x]) == multiset{x, y};
    SortedPair(LoadCommitteeMemberships(docs), MemberKey, x, y);
  }

  /** The subcommittee member comes first, the direct member (no
      subcommittee name) last. */
  lemma {:induction false} SmallRosterMembers(d: Document, c: Committee, j: Member, s: Subcommittee, t: Member)
    requires SmallRoster(d, c, j, s, t) && s.name.Some?
    ensures var a := FileAbbrev(d.path);
            var f := SourceFile(d.path);
            LoadCommitteeMemberships([Some(d)])
            == [RowFor(a, f, c, s.name, s.code, t), RowFor(a, f, c, None, None, j)]
  {
    var a := FileAbbrev(d.path);
    var f := SourceFile(d.path);
    var direct := RowFor(a, f, c, None, None, j);
    var sub := RowFor(a, f, c, s.name, s.code, t);
    SmallRosterRawRows(d, c, j, s, t);
    DirectRowSortsLast(direct, sub);
    LoadOfTwoRows([Some(d)], sub, direct);
  }

  /** Without duplicates the hierarchy table holds exactly the main row and
      the subcommittee row. */
  lemma {:induction false} BuildOfTwoRows(docs: Corpus, x: HierarchyRow, y: HierarchyRow)
    requires CorpusHierarchy(docs) == [x, y] && x != y
    requires !KeyLe(HierarchyKey(y), HierarchyKey(x))
    ensures BuildCommitteeHierarchyMap(docs) == [x, y]
  {
    PairNoDup(x, y);
    DropDuplicatesOfNoDup([x, y]);
    SortedPair(BuildCommitteeHierarchyMap(docs), HierarchyKey, x, y);
  }

  lemma {:induction false} SmallRosterRawHierarchy(d: Document, c: Committee, s: Subcommittee)
    requires d.committees == [c] && c.subcommittees == [s]
    ensures var a := FileAbbrev(d.path);
            CorpusHierarchy([Some(d)]) == [MainRow(a, c), SubRow(a, c, s)]
  {
    SingleFileHierarchy(d, c);
    SingleSubcommitteeHierarchy(FileAbbrev(d.path), c, s);
  }

  /** A subcommittee whose code sorts after "MAIN" has its row after the
      main row. */
  lemma {:induction false} MainRowFirst(a: string, c: Committee, s: Subcommittee)
    requires s.code.Some? && !StrLe(s.code.value, MainCode)
    ensures MainRow(a, c) != SubRow(a, c, s)
    ensures !KeyLe(HierarchyKey(SubRow(a, c, s)), HierarchyKey(MainRow(a, c)))
  {
    StrLeReflexive(MainCode);
    var k1 := HierarchyKey(SubRow(a, c, s));
    var k2 := HierarchyKey(MainRow(a, c));
    assert k1[0] == k2[0] && k1[1] == k2[1];
    KeyLeFirstDifference(k1, k2, 2);
  }

  /** The main row comes first when the subcommittee code sorts after
      "MAIN". */
  lemma {:induction false} SmallRosterHierarchy(d: Document, c: Committee, s: Subcommittee)
    requires d.committees == [c] && c.subcommittees == [s]
    requires s.code.Some? && !StrLe(s.code.value, MainCode)
    ensures var a := FileAbbrev(d.path);
            BuildCommitteeHierarchyMap([Some(d)]) == [MainRow(a, c), SubRow(a, c, s)]
  {
    var a := FileAbbrev(d.path);
    SmallRosterRawHierarchy(d, c, s);
    MainRowFirst(a, c, s);
    BuildOfTwoRows([Some(d)], MainRow(a, c), SubRow(a, c, s));
  }

  /** The left join of two member rows with two hierarchy rows when each
      member row matches exactly the other position's hierarchy row. */
  lemma {:induction false} LeftJoinPair(l0: MemberRow, l1: MemberRow, h0: HierarchyRow, h1: HierarchyRow)
    requires KeysMatch(l0, h1) && !KeysMatch(l0, h0)
    requires KeysMatch(l1, h0) && !KeysMatch(l1, h1)
    ensures LeftJoin([l0, l1], [h0, h1]) == [Joined(l0, h1), Joined(l1, h0)]
  {
    var hs := [h0, h1];
    assert hs[1..] == [h1] && [h1][1..] == [];
    assert Matches(l0, hs) == [h1];
    assert Matches(l1, hs) == [h0];
    var r0 := RowsFor(l0, hs);
    assert |r0| == 1 && r0[0] == Joined(l0, h1);
    var r1 := RowsFor(l1, hs);
    assert |r1| == 1 && r1[0] == Joined(l1, h0);
    var ls := [l0, l1];
    assert ls[1..] == [l1] && [l1][1..] == [];
    assert LeftJoin([l1], hs) == r1 + LeftJoin([], hs);
  }

  lemma {:induction false} FillMainPair(l0: MemberRow, l1: MemberRow)
    ensures FillMain([l0, l1]) == [FillMainRow(l0), FillMainRow(l1)]
  {
    var fm := FillMain([l0, l1]);
    assert |fm| == 2 && fm[0] == FillMainRow(l0) && fm[1] == FillMainRow(l1);
  }

  /** A two-row members table joined with a two-row hierarchy table, each
      member row matching the other position's hierarchy row once filled. */
  lemma {:induction false} MergedOfTwoRows(docs: Corpus, l0: MemberRow, l1: MemberRow, h0: HierarchyRow, h1: HierarchyRow)
    requires LoadCommitteeMemberships(docs) == [l0, l1]
    requires BuildCommitteeHierarchyMap(docs) == [h0, h1]
    requires KeysMatch(FillMainRow(l0), h1) && !KeysMatch(FillMainRow(l0), h0)
    requires KeysMatch(FillMainRow(l1), h0) && !KeysMatch(FillMainRow(l1), h1)
    ensures GetMembersWithHierarchy(docs) == [Joined(FillMainRow(l0), h1), Joined(FillMainRow(l1), h0)]
  {
    calc {
      GetMembersWithHierarchy(docs);
      { FinalSortIsIdentity(docs); }
      LeftJoin(FillMain(LoadCommitteeMemberships(docs)), BuildCommitteeHierarchyMap(docs));
      LeftJoin(FillMain([l0, l1]), [h0, h1]);
      { FillMainPair(l0, l1); }
      LeftJoin([FillMainRow(l0), FillMainRow(l1)], [h0, h1]);
      { LeftJoinPair(FillMainRow(l0), FillMainRow(l1), h0, h1); }
      [Joined(FillMainRow(l0), h1), Joined(FillMainRow(l1), h0)];
    }
  }

  /** The subcommittee member is joined to the subcommittee row, the direct
      member (code filled with "MAIN") to the main row, in that order. */
  lemma {:induction false} SmallRosterMerged(d: Document, c: Committee, j: Member, s: Subcommittee, t: Member)
    requires SmallRoster(d, c, j, s, t) && s.name.Some?
    requires s.code.Some? && !StrLe(s.code.value, MainCode)
    ensures var a := FileAbbrev(d.path);
            var f := SourceFile(d.path);
            GetMembersWithHierarchy([Some(d)])
            == [Joined(RowFor(a, f, c, s.name, s.code, t), SubRow(a, c, s)),
                Joined(RowFor(a, f, c, None, Some(MainCode), j), MainRow(a, c))]
  {
    var a := FileAbbrev(d.path);
    var f := SourceFile(d.path);
    var sub := RowFor(a, f, c, s.name, s.code, t);
    var direct := RowFor(a, f, c, None, None, j);
    assert FillMainRow(sub) == sub;
    assert FillMainRow(direct) == RowFor(a, f, c, None, Some(MainCode), j);
    SmallRosterMembers(d, c, j, s, t);
    SmallRosterHierarchy(d, c, s);
    StrLeReflexive(MainCode);
    assert s.code != Some(MainCode);
    MergedOfTwoRows([Some(d)], sub, direct, MainRow(a, c), SubRow(a, c, s));
  }

  // ---------------------------------------------------------------------
  // The Banking roster
  // ---------------------------------------------------------------------

  /** The members table lists Tom Lee (Housing) before Jane Doe (direct
      member, no subcommittee), with the abbreviation taken from the file name. */
  lemma {:induction false} BankingMembers()
    ensures var t := LoadCommitteeMemberships(BankingCorpus);
            && |t| == 2
            && t[0].memberLast == Some("Lee") && t[0].subcommitteeCode == Some("SSBK01")
            && t[1].memberLast == Some("Doe") && t[1].subcommitteeCode.None?
            && t[0].fileCommitteeAbbrev == "SSBK" && t[0].fullName == Some("Tom Lee")
  {
    assert SmallRoster(BankingFile, Banking, Jane, Housing, Tom);
    SmallRosterMembers(BankingFile, Banking, Jane, Housing, Tom);
    BankingAbbrev();
    TomLeeFullName();
  }

  /** The hierarchy table holds the main row and the Housing row, in that
      order. */
  lemma {:induction false} BankingHierarchy()
    ensures var h := BuildCommitteeHierarchyMap(BankingCorpus);
            && |h| == 2
            && h[0].subcommitteeCode == Some(MainCode) && h[0].level == MainCommitteeLabel
            && h[1].subcommitteeCode == Some("SSBK01") && h[1].level == SubcommitteeLabel
  {
    HousingAfterMain();
    SmallRosterHierarchy(BankingFile, Banking, Housing);
  }

  /** Tom Lee carries the Housing hierarchy columns; Jane Doe, filled with
      "MAIN", carries the main committee's. */
  lemma {:induction false} BankingMerged()
    ensures var t := GetMembersWithHierarchy(BankingCorpus);
            && |t| == 2
            && t[0].member.memberLast == Some("Lee") && t[0].level == Some(SubcommitteeLabel)
            && t[0].committeeNameHierarchy == Some("Banking")
            && t[0].subcommitteeNameHierarchy == Some("Housing")
            && t[1].member.memberLast == Some("Doe") && t[1].level == Some(MainCommitteeLabel)
            && t[1].member.subcommitteeCode == Some(MainCode)
            && t[1].committeeNameHierarchy == Some("Banking")
            && t[1].subcommitteeNameHierarchy == Some(MainCommitteeLabel)
  {
    HousingAfterMain();
    assert SmallRoster(BankingFile, Banking, Jane, Housing, Tom);
    SmallRosterMerged(BankingFile, Banking, Jane, Housing, Tom);
  }
}
