/** Stage 3, `get_members_with_hierarchy`: missing subcommittee codes in the
    members table become "MAIN", each member row is left-joined with the
    hierarchy rows on (file_committee_abbrev, committee_code,
    subcommittee_code), and the result is sorted like the members table. */
module Merge {
  import opened Wrappers
  import opened Table
  import opened Roster
  import opened Members
  import opened Hierarchy

  /** One row of the merged table: the member columns, then the
      hierarchy-side `committee_name_hierarchy`, `subcommittee_name_hierarchy`
      and `level`. The join-key columns appear once, in the member part. */
  datatype MergedRow = MergedRow(
    member: MemberRow,
    committeeNameHierarchy: Cell,
    subcommitteeNameHierarchy: Cell,
    level: Cell)

  /** The sort key of the merged table: the same columns as the members
      table, all taken from the member side. */
  function MergedKey(m: MergedRow): Key {
    MemberKey(m.member)
  }

  /** `fillna("MAIN")` on `subcommittee_code` for one row. */
  function FillMainRow(r: MemberRow): (f: MemberRow)
    ensures f.subcommitteeCode.Some?
    ensures r.subcommitteeCode.Some? ==> f == r
    ensures r.subcommitteeCode.None? ==> f.subcommitteeCode == Some(MainCode)
    ensures f.(subcommitteeCode := r.subcommitteeCode) == r
    ensures MemberKey(f) == MemberKey(r)
  {
    if r.subcommitteeCode.None? then r.(subcommitteeCode := Some(MainCode)) else r
  }

  /** `members_df["subcommittee_code"].fillna("MAIN")` on the whole table. */
  function FillMain(rows: seq<MemberRow>): (r: seq<MemberRow>)
    ensures |r| == |rows|
    ensures forall i :: 0 <= i < |r| ==> r[i] == FillMainRow(rows[i])
  {
    seq(|rows|, i requires 0 <= i < |rows| => FillMainRow(rows[i]))
  }

  /** Filling keeps a sorted members table sorted. */
  lemma {:induction false} FillMainSorted(rows: seq<MemberRow>)
    requires Sorted(rows, MemberKey)
    ensures Sorted(FillMain(rows), MemberKey)
  {
    var r := FillMain(rows);
    forall i, j | 0 <= i < j < |r|
      ensures KeyLe(MemberKey(r[i]), MemberKey(r[j]))
    {
      assert MemberKey(r[i]) == MemberKey(rows[i]);
      assert MemberKey(r[j]) == MemberKey(rows[j]);
    }
  }

  // ---------------------------------------------------------------------
  // The left join
  // ---------------------------------------------------------------------

  /** The join key of a member row. */
  function JoinKey(l: MemberRow): Key {
    [Some(l.fileCommitteeAbbrev), l.committeeCode, l.subcommitteeCode]
  }

  /** `l` and `h` agree on all three join columns; a missing value matches a
      missing value, as in pandas. */
  predicate KeysMatch(l: MemberRow, h: HierarchyRow) {
    JoinKey(l) == HierarchyKey(h)
  }

  /** The hierarchy rows that match `l`. */
  function Matches(l: MemberRow, hs: seq<HierarchyRow>): (r: seq<HierarchyRow>)
    ensures forall h :: h in r <==> h in hs && KeysMatch(l, h)
    ensures |r| <= |hs|
  {
    if |hs| == 0 then []
    else if KeysMatch(l, hs[0]) then [hs[0]] + Matches(l, hs[1..])
    else Matches(l, hs[1..])
  }

  /** The matches keep the order of the hierarchy table: those of a first
      part of the table come before those of the rest. */
  lemma {:induction false} MatchesInTableOrder(l: MemberRow, a: seq<HierarchyRow>, b: seq<HierarchyRow>)
    ensures Matches(l, a + b) == Matches(l, a) + Matches(l, b)
  {
    if |a| > 0 {
      assert (a + b)[0] == a[0];
      assert (a + b)[1..] == a[1..] + b;
      MatchesInTableOrder(l, a[1..], b);
    } else {
      assert a + b == b;
    }
  }

  /** The row `l` receives from the join when nothing matches it. */
  function Unmatched(l: MemberRow): MergedRow {
    MergedRow(l, None, None, None)
  }

  /** The row `l` receives from the join for the matching row `h`. */
  function Joined(l: MemberRow, h: HierarchyRow): MergedRow {
    MergedRow(l, h.committeeName, h.subcommitteeName, Some(h.level))
  }

  /** `m` is a row the join can produce for `l`: with the hierarchy columns
      of a matching row when there is one, with all of them missing when
      there is none. */
  ghost predicate JoinedFrom(m: MergedRow, l: MemberRow, hs: seq<HierarchyRow>) {
    && m.member == l
    && if exists h :: h in hs && KeysMatch(l, h) then
         exists h :: h in hs && KeysMatch(l, h) && m == Joined(l, h)
       else
         m.committeeNameHierarchy.None? && m.subcommitteeNameHierarchy.None? && m.level.None?
  }

  /** How many rows one member row contributes to a left join: one per
      matching hierarchy row, and one when nothing matches. */
  function RowsForCount(l: MemberRow, hs: seq<HierarchyRow>): nat {
    var n := |Matches(l, hs)|;
    if n == 0 then 1 else n
  }

  /** How many rows the left join of `ls` has: the sum of the members'
      counts. */
  function JoinRowCount(ls: seq<MemberRow>, hs: seq<HierarchyRow>): nat {
    if |ls| == 0 then 0 else RowsForCount(ls[0], hs) + JoinRowCount(ls[1..], hs)
  }

  /** The rows one member row contributes to `merge(how="left")`: one
      joined row per match, or a single unmatched row. */
  function RowsFor(l: MemberRow, hs: seq<HierarchyRow>): (r: seq<MergedRow>)
    ensures |r| == RowsForCount(l, hs)
    ensures |Matches(l, hs)| == 0 ==> r == [Unmatched(l)]
    ensures forall m :: m in r ==> JoinedFrom(m, l, hs)
    ensures forall h :: h in hs && KeysMatch(l, h) ==> Joined(l, h) in r
  {
    var ms := Matches(l, hs);
    if |ms| == 0 then [Unmatched(l)]
    else
      var r := seq(|ms|, i requires 0 <= i < |ms| => Joined(l, ms[i]));
      assert forall m :: m in r ==> exists h :: h in ms && m == Joined(l, h);
      assert forall i :: 0 <= i < |ms| ==> Joined(l, ms[i]) in r by {
        forall i | 0 <= i < |ms| ensures Joined(l, ms[i]) in r {
          assert r[i] == Joined(l, ms[i]);
        }
      }
      r
  }

  /** `pd.merge(members, hierarchy, how="left", on=[...])`: member rows in
      order, each followed by its rows. Every member row is joined with
      every hierarchy row that matches it. */
  function LeftJoin(ls: seq<MemberRow>, hs: seq<HierarchyRow>): (r: seq<MergedRow>)
    ensures |r| == JoinRowCount(ls, hs) && |r| >= |ls|
    ensures forall l, h :: l in ls && h in hs && KeysMatch(l, h) ==> Joined(l, h) in r
  {
    if |ls| == 0 then []
    else
      var first := RowsFor(ls[0], hs);
      var rest := LeftJoin(ls[1..], hs);
      assert forall l :: l in ls ==> l == ls[0] || l in ls[1..];
      first + rest
  }

  /** The join works member row by member row: joining two parts of the
      members table one after the other gives the join of the whole, so the
      member order is kept. */
  lemma {:induction false} LeftJoinAppend(a: seq<MemberRow>, b: seq<MemberRow>, hs: seq<HierarchyRow>)
    ensures LeftJoin(a + b, hs) == LeftJoin(a, hs) + LeftJoin(b, hs)
  {
    if |a| > 0 {
      assert (a + b)[0] == a[0];
      assert (a + b)[1..] == a[1..] + b;
      var x := RowsFor(a[0], hs);
      calc {
        LeftJoin(a + b, hs);
        x + LeftJoin(a[1..] + b, hs);
        { LeftJoinAppend(a[1..], b, hs); }
        x + (LeftJoin(a[1..], hs) + LeftJoin(b, hs));
        { SeqAppendAssoc(x, LeftJoin(a[1..], hs), LeftJoin(b, hs)); }
        (x + LeftJoin(a[1..], hs)) + LeftJoin(b, hs);
        LeftJoin(a, hs) + LeftJoin(b, hs);
      }
    } else {
      assert a + b == b;
    }
  }

  /** A single member row is joined to exactly its own rows. */
  lemma {:induction false} LeftJoinSingle(l: MemberRow, hs: seq<HierarchyRow>)
    ensures LeftJoin([l], hs) == RowsFor(l, hs)
  {
    assert [l][1..] == [];
    assert LeftJoin([l], hs) == RowsFor(l, hs) + LeftJoin([], hs);
  }

  /** Every joined row is one the join may produce for a member row of the
      input. */
  lemma {:induction false} LeftJoinSound(ls: seq<MemberRow>, hs: seq<HierarchyRow>)
    ensures forall m :: m in LeftJoin(ls, hs) ==> m.member in ls && JoinedFrom(m, m.member, hs)
  {
    if |ls| > 0 {
      LeftJoinSound(ls[1..], hs);
      assert forall l :: l in ls[1..] ==> l in ls;
    }
  }

  /** No member row is lost by the join. */
  lemma {:induction false} LeftJoinKeepsEveryRow(ls: seq<MemberRow>, hs: seq<HierarchyRow>)
    ensures forall l :: l in ls ==> exists m :: m in LeftJoin(ls, hs) && m.member == l
  {
    if |ls| > 0 {
      LeftJoinKeepsEveryRow(ls[1..], hs);
      var first := RowsFor(ls[0], hs);
      assert first[0] in first;
      forall l | l in ls
        ensures exists m :: m in LeftJoin(ls, hs) && m.member == l
      {
        if l == ls[0] {
          assert first[0] in LeftJoin(ls, hs);
        } else {
          assert l in ls[1..];
          var m :| m in LeftJoin(ls[1..], hs) && m.member == l;
          assert m in LeftJoin(ls, hs);
        }
      }
    }
  }

  /** No two hierarchy rows share a join key. */
  ghost predicate UniqueKeys(hs: seq<HierarchyRow>) {
    forall i, j :: 0 <= i < j < |hs| ==> HierarchyKey(hs[i]) != HierarchyKey(hs[j])
  }

  lemma {:induction false} NoMatches(l: MemberRow, hs: seq<HierarchyRow>)
    requires forall j :: 0 <= j < |hs| ==> !KeysMatch(l, hs[j])
    ensures Matches(l, hs) == []
  {
    if |hs| > 0 {
      NoMatches(l, hs[1..]);
    }
  }

  lemma {:induction false} MatchesOfUniqueKeys(l: MemberRow, hs: seq<HierarchyRow>)
    requires UniqueKeys(hs)
    ensures |Matches(l, hs)| <= 1
  {
    if |hs| > 0 {
      if KeysMatch(l, hs[0]) {
        forall j | 0 <= j < |hs[1..]|
          ensures !KeysMatch(l, hs[1..][j])
        {
          assert hs[1..][j] == hs[j + 1];
        }
        NoMatches(l, hs[1..]);
      } else {
        assert UniqueKeys(hs[1..]) by {
          forall i, j | 0 <= i < j < |hs[1..]|
            ensures HierarchyKey(hs[1..][i]) != HierarchyKey(hs[1..][j])
          {
            assert hs[1..][i] == hs[i + 1] && hs[1..][j] == hs[j + 1];
          }
        }
        MatchesOfUniqueKeys(l, hs[1..]);
      }
    }
  }

  /** When the hierarchy keys are unique the join keeps every member row
      exactly once and in order. */
  lemma {:induction false} LeftJoinUniqueKeys(ls: seq<MemberRow>, hs: seq<HierarchyRow>)
    requires UniqueKeys(hs)
    ensures |LeftJoin(ls, hs)| == |ls|
    ensures forall i :: 0 <= i < |ls| ==> LeftJoin(ls, hs)[i].member == ls[i]
  {
    if |ls| > 0 {
      MatchesOfUniqueKeys(ls[0], hs);
      LeftJoinUniqueKeys(ls[1..], hs);
      var first := RowsFor(ls[0], hs);
      assert |first| == 1;
      assert first[0] in first;
    }
  }

  /** The join of a sorted members table is sorted on the same columns. */
  lemma {:induction false} LeftJoinSorted(ls: seq<MemberRow>, hs: seq<HierarchyRow>)
    requires Sorted(ls, MemberKey)
    ensures Sorted(LeftJoin(ls, hs), MergedKey)
  {
    if |ls| > 0 {
      var first := RowsFor(ls[0], hs);
      var rest := LeftJoin(ls[1..], hs);
      LeftJoinSorted(ls[1..], hs);
      LeftJoinSound(ls[1..], hs);
      forall m | m in rest
        ensures KeyLe(MemberKey(ls[0]), MergedKey(m))
      {
        var k :| 0 <= k < |ls[1..]| && ls[1..][k] == m.member;
        assert ls[k + 1] == m.member;
      }
      BlockThenSorted(first, rest, MemberKey(ls[0]));
    }
  }

  /** A block of rows that all have key `k`, followed by a sorted table whose
      keys are all at least `k`, is sorted. */
  lemma {:induction false} BlockThenSorted(first: seq<MergedRow>, rest: seq<MergedRow>, k: Key)
    requires forall m :: m in first ==> MergedKey(m) == k
    requires Sorted(rest, MergedKey)
    requires forall m :: m in rest ==> KeyLe(k, MergedKey(m))
    ensures Sorted(first + rest, MergedKey)
  {
    var r := first + rest;
    KeyLeReflexive(k);
    forall i, j | 0 <= i < j < |r|
      ensures KeyLe(MergedKey(r[i]), MergedKey(r[j]))
    {
      if j < |first| {
        assert r[i] in first && r[j] in first;
      } else if i < |first| {
        assert r[i] in first;
        assert r[j] == rest[j - |first|];
      } else {
        assert r[i] == rest[i - |first|] && r[j] == rest[j - |first|];
      }
    }
  }

  // ---------------------------------------------------------------------
  // The whole pipeline
  // ---------------------------------------------------------------------

  /** `get_members_with_hierarchy()`. */
  function GetMembersWithHierarchy(docs: Corpus): (r: seq<MergedRow>)
    ensures multiset(r)
            == multiset(LeftJoin(FillMain(LoadCommitteeMemberships(docs)), BuildCommitteeHierarchyMap(docs)))
    ensures Sorted(r, MergedKey)
  {
    SortBy(LeftJoin(FillMain(LoadCommitteeMemberships(docs)), BuildCommitteeHierarchyMap(docs)), MergedKey)
  }

  /** The left join loses no member: the merged table has at least one row
      per `member` element of the parsed files. */
  lemma {:induction false} MergedTableCoversMembers(docs: Corpus)
    ensures |GetMembersWithHierarchy(docs)| >= CorpusMemberCount(docs)
  {
    var joined := LeftJoin(FillMain(LoadCommitteeMemberships(docs)), BuildCommitteeHierarchyMap(docs));
    var r := GetMembersWithHierarchy(docs);
    assert |r| == |multiset(r)| == |multiset(joined)| == |joined|;
    LoadRowCount(docs);
  }

  /** Sorting the left join of a sorted members table by the same columns
      changes nothing. */
  lemma {:induction false} SortedJoinNeedsNoSort(ls: seq<MemberRow>, hs: seq<HierarchyRow>)
    requires Sorted(ls, MemberKey)
    ensures SortBy(LeftJoin(FillMain(ls), hs), MergedKey) == LeftJoin(FillMain(ls), hs)
  {
    FillMainSorted(ls);
    LeftJoinSorted(FillMain(ls), hs);
    SortBySortedIsIdentity(LeftJoin(FillMain(ls), hs), MergedKey);
  }

  /** The final sort changes nothing: the join already comes out in order. */
  lemma {:induction false} FinalSortIsIdentity(docs: Corpus)
    ensures GetMembersWithHierarchy(docs)
            == LeftJoin(FillMain(LoadCommitteeMemberships(docs)), BuildCommitteeHierarchyMap(docs))
  {
    SortedJoinNeedsNoSort(LoadCommitteeMemberships(docs), BuildCommitteeHierarchyMap(docs));
  }

  /** The sorted join of a sorted members table with a hierarchy table of
      unique keys pairs the i-th member row, filled, with the i-th result. */
  lemma {:induction false} JoinedRowPerMember(ls: seq<MemberRow>, hs: seq<HierarchyRow>)
    requires Sorted(ls, MemberKey) && UniqueKeys(hs)
    ensures var r := SortBy(LeftJoin(FillMain(ls), hs), MergedKey);
            && |r| == |ls|
            && forall i :: 0 <= i < |r| ==> r[i].member == FillMainRow(ls[i])
  {
    SortedJoinNeedsNoSort(ls, hs);
    LeftJoinUniqueKeys(FillMain(ls), hs);
  }

  /** With unique hierarchy keys the merged table has one row per member
      element, and its member part is the filled members table. */
  lemma {:induction false} MergedRowPerMember(docs: Corpus)
    requires UniqueKeys(BuildCommitteeHierarchyMap(docs))
    ensures |GetMembersWithHierarchy(docs)| == CorpusMemberCount(docs)
    ensures forall i :: 0 <= i < |GetMembersWithHierarchy(docs)| ==>
              GetMembersWithHierarchy(docs)[i].member
              == FillMainRow(LoadCommitteeMemberships(docs)[i])
  {
    LoadRowCount(docs);
    JoinedRowPerMember(LoadCommitteeMemberships(docs), BuildCommitteeHierarchyMap(docs));
  }

  /** Every row of the members table finds its hierarchy row after the
      fill: a direct member (and a member of a subcommittee without a code)
      the main row of its committee, any other member its subcommittee's
      row. */
  lemma {:induction false} MemberRowHasHierarchyRow(docs: Corpus, x: MemberRow)
    requires x in LoadCommitteeMemberships(docs)
    ensures exists h :: h in BuildCommitteeHierarchyMap(docs) && KeysMatch(FillMainRow(x), h)
  {
    LoadCommitteeMembershipsProvenance(docs);
    var d :| Some(d) in docs && RowOfDocument(x, d);
    var c :| c in d.committees && RowOfCommittee(x, c);
    var abbrev := FileAbbrev(d.path);
    CommitteesHierarchyComplete(abbrev, d.committees, c);
    if x.subcommitteeCode.None? {
      HierarchyMapComplete(docs, d, MainRow(abbrev, c));
      assert KeysMatch(FillMainRow(x), MainRow(abbrev, c));
    } else {
      var s :| s in c.subcommittees && x.subcommitteeName == s.name && x.subcommitteeCode == s.code
        && exists m :: m in MemberList(s.members) && CarriesMember(x, m);
      HierarchyMapComplete(docs, d, SubRow(abbrev, c, s));
      assert KeysMatch(FillMainRow(x), SubRow(abbrev, c, s));
    }
  }

  /** No row of the merged table has missing hierarchy columns from a
      failed match: every member row matches. */
  lemma {:induction false} EveryMergedRowMatched(docs: Corpus)
    ensures forall m :: m in GetMembersWithHierarchy(docs) ==>
              && m.level.Some?
              && exists h :: h in BuildCommitteeHierarchyMap(docs) && KeysMatch(m.member, h) && m == Joined(m.member, h)
  {
    var members := LoadCommitteeMemberships(docs);
    var hs := BuildCommitteeHierarchyMap(docs);
    var filled := FillMain(members);
    FinalSortIsIdentity(docs);
    LeftJoinSound(filled, hs);
    forall m | m in GetMembersWithHierarchy(docs)
      ensures m.level.Some?
      ensures exists h :: h in hs && KeysMatch(m.member, h) && m == Joined(m.member, h)
    {
      var i :| 0 <= i < |filled| && filled[i] == m.member;
      MemberRowHasHierarchyRow(docs, members[i]);
    }
  }

  /** No subcommittee in any parsed file uses the sentinel code. */
  ghost predicate NoSubcommitteeCodedMain(docs: Corpus) {
    forall d, c, s :: Some(d) in docs && c in d.committees && s in c.subcommittees
      ==> s.code != Some(MainCode)
  }

  /** A merged row whose subcommittee code is "MAIN" after the fill (a
      direct member) is joined to a "Main Committee" row, as long as no
      subcommittee itself is coded "MAIN". */
  lemma {:induction false} DirectMemberJoinsMainRow(docs: Corpus)
    requires NoSubcommitteeCodedMain(docs)
    ensures forall m :: m in GetMembersWithHierarchy(docs) && m.member.subcommitteeCode == Some(MainCode) ==>
              m.level == Some(MainCommitteeLabel) && m.subcommitteeNameHierarchy == Some(MainCommitteeLabel)
  {
    EveryMergedRowMatched(docs);
    HierarchyMapSound(docs);
    forall m | m in GetMembersWithHierarchy(docs) && m.member.subcommitteeCode == Some(MainCode)
      ensures m.level == Some(MainCommitteeLabel) && m.subcommitteeNameHierarchy == Some(MainCommitteeLabel)
    {
      var h :| h in BuildCommitteeHierarchyMap(docs) && KeysMatch(m.member, h) && m == Joined(m.member, h);
      assert HierarchyKey(h)[2] == Some(MainCode);
      var d :| Some(d) in docs && HierarchyRowOfDocument(h, d);
      var c :| c in d.committees && HierarchyRowOfCommittee(h, FileAbbrev(d.path), c);
      assert h == MainRow(FileAbbrev(d.path), c);
    }
  }

  /** Every pairing of a loaded member row, once filled, with a hierarchy
      row of the same key is a row of the merged table. */
  lemma {:induction false} MatchingPairMerged(docs: Corpus, x: MemberRow, h: HierarchyRow)
    requires x in LoadCommitteeMemberships(docs)
    requires h in BuildCommitteeHierarchyMap(docs) && KeysMatch(FillMainRow(x), h)
    ensures Joined(FillMainRow(x), h) in GetMembersWithHierarchy(docs)
  {
    var ls := LoadCommitteeMemberships(docs);
    var i :| 0 <= i < |ls| && ls[i] == x;
    var filled := FillMain(ls);
    assert filled[i] == FillMainRow(x);
    var joined := LeftJoin(filled, BuildCommitteeHierarchyMap(docs));
    assert Joined(FillMainRow(x), h) in multiset(joined);
  }

  /** When two subcommittees of a committee share a code under different
      names, a member of one of them is joined with both subcommittee rows:
      the merged table holds two rows for that one member element. */
  lemma {:induction false} SharedCodeJoinsBoth(docs: Corpus, d: Document, c: Committee,
                                               s1: Subcommittee, s2: Subcommittee, m: Member)
    requires Some(d) in docs && c in d.committees
    requires s1 in c.subcommittees && s2 in c.subcommittees
    requires s1.code.Some? && s1.code == s2.code && s1.name != s2.name
    requires m in MemberList(s1.members)
    ensures var a := FileAbbrev(d.path);
            var x := RowFor(a, SourceFile(d.path), c, s1.name, s1.code, m);
            && Joined(x, SubRow(a, c, s1)) in GetMembersWithHierarchy(docs)
            && Joined(x, SubRow(a, c, s2)) in GetMembersWithHierarchy(docs)
            && Joined(x, SubRow(a, c, s1)) != Joined(x, SubRow(a, c, s2))
  {
    var a := FileAbbrev(d.path);
    var x := RowFor(a, SourceFile(d.path), c, s1.name, s1.code, m);
    SubcommitteeMemberLoaded(docs, d, c, s1, m);
    HierarchyKeysMayRepeat(docs, d, c, s1, s2);
    assert FillMainRow(x) == x;
    MatchingPairMerged(docs, x, SubRow(a, c, s1));
    MatchingPairMerged(docs, x, SubRow(a, c, s2));
  }

  /** A file that fails to parse changes nothing in the merged table. */
  lemma {:induction false} UnparseableFileIgnoredByMerge(a: Corpus, b: Corpus)
    ensures GetMembersWithHierarchy(a + [None] + b) == GetMembersWithHierarchy(a + b)
  {
    UnparseableFileIgnored(a, b);
    UnparseableFileIgnoredByHierarchy(a, b);
  }
}
