/** Stage 1, `load_committee_memberships`: one row per member element, direct
    or under a subcommittee, with a derived `full_name`, sorted by
    (file_committee_abbrev, committee_name, subcommittee_name, member_last). */
module Members {
  import opened Wrappers
  import opened Text
  import opened Table
  import opened Roster

  /** One row of the members table. */
  datatype MemberRow = MemberRow(
    fileCommitteeAbbrev: string,
    committeeName: Cell,
    committeeCode: Cell,
    subcommitteeName: Cell,
    subcommitteeCode: Cell,
    memberFirst: Cell,
    memberLast: Cell,
    state: Cell,
    party: Cell,
    position: Cell,
    majorityParty: Cell,
    sourceFile: string,
    fullName: Cell)

  /** A first and a last name joined by one space split back at the space
      after the stripped first name. */
  lemma {:induction false} FullNameSplit(first: string, last: string)
    ensures var n := Strip(first) + " " + Strip(last);
            exists k :: 0 <= k < |n| && n[k] == ' '
              && StrippedOf(first, n[..k]) && StrippedOf(last, n[k + 1..])
  {
    var f := Strip(first);
    var l := Strip(last);
    var n := f + " " + l;
    var k := |f|;
    assert n[..k] == f;
    assert n[k + 1..] == l;
    assert n[k] == ' ';
    assert 0 <= k < |n| && n[k] == ' ' && StrippedOf(first, n[..k]) && StrippedOf(last, n[k + 1..]);
  }

  /** `member_first.str.strip() + " " + member_last.str.strip()`: missing
      exactly when a name part is missing; otherwise the stripped first
      name, one space, and the stripped last name. */
  function FullName(first: Cell, last: Cell): (r: Cell)
    ensures r.None? <==> first.None? || last.None?
    ensures r.Some? ==>
              var n := r.value;
              exists k :: 0 <= k < |n| && n[k] == ' '
                && StrippedOf(first.value, n[..k]) && StrippedOf(last.value, n[k + 1..])
  {
    if first.Some? && last.Some? then
      FullNameSplit(first.value, last.value);
      Some(Strip(first.value) + " " + Strip(last.value))
    else None
  }

  /** Names without surrounding whitespace are joined as they are. */
  lemma {:induction false} FullNameOfUnpadded(first: string, last: string)
    requires |first| > 0 && !IsSpace(first[0]) && !IsSpace(first[|first| - 1])
    requires |last| > 0 && !IsSpace(last[0]) && !IsSpace(last[|last| - 1])
    ensures FullName(Some(first), Some(last)) == Some(first + " " + last)
  {
    StripUnpadded(first);
    StripUnpadded(last);
  }

  /** The sort key of the members table. */
  function MemberKey(r: MemberRow): Key {
    [Some(r.fileCommitteeAbbrev), r.committeeName, r.subcommitteeName, r.memberLast]
  }

  /** Within one file and committee, a direct member's row (no subcommittee
      name) sorts after every row that has one: missing values go last. */
  lemma {:induction false} DirectRowSortsLast(direct: MemberRow, sub: MemberRow)
    requires direct.fileCommitteeAbbrev == sub.fileCommitteeAbbrev
    requires direct.committeeName == sub.committeeName
    requires direct.subcommitteeName.None? && sub.subcommitteeName.Some?
    ensures !KeyLe(MemberKey(direct), MemberKey(sub))
    ensures KeyLe(MemberKey(sub), MemberKey(direct))
  {
    var k1 := MemberKey(direct);
    var k2 := MemberKey(sub);
    assert k1[0] == k2[0] && k1[1] == k2[1];
    KeyLeFirstDifference(k1, k2, 2);
    KeyLeFirstDifference(k2, k1, 2);
  }

  // ---------------------------------------------------------------------
  // Provenance of a row
  // ---------------------------------------------------------------------

  /** `r` carries the committee-level columns of `c`. */
  ghost predicate CarriesCommittee(r: MemberRow, c: Committee) {
    r.committeeName == c.name && r.committeeCode == c.code && r.majorityParty == c.majorityParty
  }

  /** `r` carries the member-level columns of `m`, including the full name. */
  ghost predicate CarriesMember(r: MemberRow, m: Member) {
    && r.memberFirst == m.first && r.memberLast == m.last
    && r.state == m.state && r.party == m.party && r.position == m.position
    && r.fullName == FullName(m.first, m.last)
  }

  /** `r` is the row of a direct member of `c` (no subcommittee columns) or
      of a member of one of its subcommittees (that subcommittee's columns). */
  ghost predicate RowOfCommittee(r: MemberRow, c: Committee) {
    && CarriesCommittee(r, c)
    && (|| (&& r.subcommitteeName.None? && r.subcommitteeCode.None?
            && exists m :: m in MemberList(c.members) && CarriesMember(r, m))
        || (exists s :: s in c.subcommittees && r.subcommitteeName == s.name
              && r.subcommitteeCode == s.code
              && exists m :: m in MemberList(s.members) && CarriesMember(r, m)))
  }

  /** `r` comes from a committee of `d` and carries `d`'s file columns. */
  ghost predicate RowOfDocument(r: MemberRow, d: Document) {
    && r.fileCommitteeAbbrev == FileAbbrev(d.path)
    && r.sourceFile == SourceFile(d.path)
    && exists c :: c in d.committees && RowOfCommittee(r, c)
  }

  // ---------------------------------------------------------------------
  // Member counts, as a reference for the row counts
  // ---------------------------------------------------------------------

  function SubcommitteesMemberCount(subs: seq<Subcommittee>): nat {
    if |subs| == 0 then 0
    else |MemberList(subs[0].members)| + SubcommitteesMemberCount(subs[1..])
  }

  function CommitteeMemberCount(c: Committee): nat {
    |MemberList(c.members)| + SubcommitteesMemberCount(c.subcommittees)
  }

  function CommitteesMemberCount(cs: seq<Committee>): nat {
    if |cs| == 0 then 0 else CommitteeMemberCount(cs[0]) + CommitteesMemberCount(cs[1..])
  }

  /** Member elements in all files that parsed. */
  function CorpusMemberCount(docs: Corpus): nat {
    if |docs| == 0 then 0
    else (if docs[0].Some? then CommitteesMemberCount(docs[0].value.committees) else 0)
         + CorpusMemberCount(docs[1..])
  }

  // ---------------------------------------------------------------------
  // Row flattening
  // ---------------------------------------------------------------------

  function RowFor(abbrev: string, file: string, c: Committee, subName: Cell, subCode: Cell, m: Member): MemberRow {
    MemberRow(abbrev, c.name, c.code, subName, subCode, m.first, m.last, m.state, m.party,
              m.position, c.majorityParty, file, FullName(m.first, m.last))
  }

  /** The rows of the direct members of `c`, one per member, in order. */
  function DirectRows(abbrev: string, file: string, c: Committee): (r: seq<MemberRow>)
    ensures |r| == |MemberList(c.members)|
    ensures forall i :: 0 <= i < |r| ==>
              && r[i].fileCommitteeAbbrev == abbrev && r[i].sourceFile == file
              && CarriesCommittee(r[i], c) && CarriesMember(r[i], MemberList(c.members)[i])
              && r[i].subcommitteeName.None? && r[i].subcommitteeCode.None?
  {
    var ms := MemberList(c.members);
    seq(|ms|, i requires 0 <= i < |ms| => RowFor(abbrev, file, c, None, None, ms[i]))
  }

  /** The rows of the members of subcommittee `s` of `c`, one per member. */
  function SubcommitteeRows(abbrev: string, file: string, c: Committee, s: Subcommittee): (r: seq<MemberRow>)
    ensures |r| == |MemberList(s.members)|
    ensures forall i :: 0 <= i < |r| ==>
              && r[i].fileCommitteeAbbrev == abbrev && r[i].sourceFile == file
              && CarriesCommittee(r[i], c) && CarriesMember(r[i], MemberList(s.members)[i])
              && r[i].subcommitteeName == s.name && r[i].subcommitteeCode == s.code
  {
    var ms := MemberList(s.members);
    seq(|ms|, i requires 0 <= i < |ms| => RowFor(abbrev, file, c, s.name, s.code, ms[i]))
  }

  /** A committee without a `members` element has no direct rows: only its
      subcommittees contribute. */
  lemma {:induction false} AbsentMembersNoDirectRows(abbrev: string, file: string, c: Committee)
    requires c.members.None?
    ensures DirectRows(abbrev, file, c) == []
    ensures CommitteeRows(abbrev, file, c) == SubcommitteesRows(abbrev, file, c, c.subcommittees)
  {
    assert |DirectRows(abbrev, file, c)| == 0;
  }

  /** A subcommittee without a `members` element contributes no rows: it
      leaves the rows of the subcommittees after it unchanged. */
  lemma {:induction false} AbsentMembersNoSubcommitteeRows(abbrev: string, file: string, c: Committee,
                                                           s: Subcommittee, rest: seq<Subcommittee>)
    requires s.members.None?
    ensures SubcommitteeRows(abbrev, file, c, s) == []
    ensures SubcommitteesRows(abbrev, file, c, [s] + rest) == SubcommitteesRows(abbrev, file, c, rest)
  {
    assert |SubcommitteeRows(abbrev, file, c, s)| == 0;
    assert ([s] + rest)[0] == s && ([s] + rest)[1..] == rest;
  }

  /** The subcommittee rows of `c`, subcommittee by subcommittee. */
  function SubcommitteesRows(abbrev: string, file: string, c: Committee, subs: seq<Subcommittee>): (r: seq<MemberRow>)
    ensures |r| == SubcommitteesMemberCount(subs)
  {
    if |subs| == 0 then []
    else SubcommitteeRows(abbrev, file, c, subs[0]) + SubcommitteesRows(abbrev, file, c, subs[1..])
  }

  /** The rows a `committees` element contributes: its direct members first,
      then the members of each subcommittee. */
  function CommitteeRows(abbrev: string, file: string, c: Committee): (r: seq<MemberRow>)
    ensures |r| == CommitteeMemberCount(c)
    ensures r[..|MemberList(c.members)|] == DirectRows(abbrev, file, c)
  {
    DirectRows(abbrev, file, c) + SubcommitteesRows(abbrev, file, c, c.subcommittees)
  }

  /** The rows of the committees `cs` of one file, in document order. */
  function CommitteesRows(abbrev: string, file: string, cs: seq<Committee>): (r: seq<MemberRow>)
    ensures |r| == CommitteesMemberCount(cs)
  {
    if |cs| == 0 then []
    else CommitteeRows(abbrev, file, cs[0]) + CommitteesRows(abbrev, file, cs[1..])
  }

  /** The rows of one parsed file. */
  function DocumentRows(d: Document): (r: seq<MemberRow>)
    ensures |r| == CommitteesMemberCount(d.committees)
  {
    CommitteesRows(FileAbbrev(d.path), SourceFile(d.path), d.committees)
  }

  /** The rows of all files before sorting; a file that did not parse
      contributes none. */
  function CorpusRows(docs: Corpus): (r: seq<MemberRow>)
    ensures |r| == CorpusMemberCount(docs)
  {
    if |docs| == 0 then [] else FileRows(docs[0]) + CorpusRows(docs[1..])
  }

  /** The rows of one listed file: none when it did not parse. */
  function FileRows(o: Option<Document>): (r: seq<MemberRow>)
    ensures o.None? ==> r == []
  {
    match o
    case None => []
    case Some(d) => DocumentRows(d)
  }

  /** `load_committee_memberships()`: the flattened rows, sorted. */
  function LoadCommitteeMemberships(docs: Corpus): (r: seq<MemberRow>)
    ensures multiset(r) == multiset(CorpusRows(docs))
    ensures Sorted(r, MemberKey)
  {
    SortBy(CorpusRows(docs), MemberKey)
  }

  /** The members table has one row per `member` element of the parsed
      files. */
  lemma {:induction false} LoadRowCount(docs: Corpus)
    ensures |LoadCommitteeMemberships(docs)| == CorpusMemberCount(docs)
  {
    var r := LoadCommitteeMemberships(docs);
    assert |r| == |multiset(r)| == |multiset(CorpusRows(docs))| == |CorpusRows(docs)|;
  }

  // ---------------------------------------------------------------------
  // Where each row comes from
  // ---------------------------------------------------------------------

  lemma {:induction false} SubcommitteesRowsProvenance(abbrev: string, file: string, c: Committee, subs: seq<Subcommittee>)
    ensures forall x :: x in SubcommitteesRows(abbrev, file, c, subs) ==>
              && x.fileCommitteeAbbrev == abbrev && x.sourceFile == file && CarriesCommittee(x, c)
              && exists s :: s in subs && x.subcommitteeName == s.name && x.subcommitteeCode == s.code
                   && exists m :: m in MemberList(s.members) && CarriesMember(x, m)
  {
    if |subs| > 0 {
      SubcommitteesRowsProvenance(abbrev, file, c, subs[1..]);
      var here := SubcommitteeRows(abbrev, file, c, subs[0]);
      forall x | x in here
        ensures exists m :: m in MemberList(subs[0].members) && CarriesMember(x, m)
      {
        var i :| 0 <= i < |here| && here[i] == x;
        assert MemberList(subs[0].members)[i] in MemberList(subs[0].members);
      }
      assert forall s :: s in subs[1..] ==> s in subs;
    }
  }

  /** Every row of a committee is a direct-member row with no subcommittee
      columns or a subcommittee-member row with that subcommittee's columns,
      and carries the committee's and the file's columns. */
  lemma {:induction false} CommitteeRowsProvenance(abbrev: string, file: string, c: Committee)
    ensures forall x :: x in CommitteeRows(abbrev, file, c) ==>
              x.fileCommitteeAbbrev == abbrev && x.sourceFile == file && RowOfCommittee(x, c)
  {
    var direct := DirectRows(abbrev, file, c);
    forall x | x in direct
      ensures exists m :: m in MemberList(c.members) && CarriesMember(x, m)
    {
      var i :| 0 <= i < |direct| && direct[i] == x;
      assert MemberList(c.members)[i] in MemberList(c.members);
    }
    SubcommitteesRowsProvenance(abbrev, file, c, c.subcommittees);
  }

  lemma {:induction false} CommitteesRowsProvenance(abbrev: string, file: string, cs: seq<Committee>)
    ensures forall x :: x in CommitteesRows(abbrev, file, cs) ==>
              && x.fileCommitteeAbbrev == abbrev && x.sourceFile == file
              && exists c :: c in cs && RowOfCommittee(x, c)
  {
    if |cs| > 0 {
      CommitteeRowsProvenance(abbrev, file, cs[0]);
      CommitteesRowsProvenance(abbrev, file, cs[1..]);
      assert forall c :: c in cs[1..] ==> c in cs;
    }
  }

  lemma {:induction false} CorpusRowsProvenance(docs: Corpus)
    ensures forall x :: x in CorpusRows(docs) ==> exists d :: Some(d) in docs && RowOfDocument(x, d)
  {
    if |docs| > 0 {
      CorpusRowsProvenance(docs[1..]);
      assert CorpusRows(docs) == FileRows(docs[0]) + CorpusRows(docs[1..]);
      forall x | x in CorpusRows(docs)
        ensures exists d :: Some(d) in docs && RowOfDocument(x, d)
      {
        if x in FileRows(docs[0]) {
          var d := docs[0].value;
          assert FileRows(docs[0]) == CommitteesRows(FileAbbrev(d.path), SourceFile(d.path), d.committees);
          CommitteesRowsProvenance(FileAbbrev(d.path), SourceFile(d.path), d.committees);
          assert RowOfDocument(x, d);
          assert Some(d) == docs[0];
        } else {
          var d :| Some(d) in docs[1..] && RowOfDocument(x, d);
          assert Some(d) in docs;
        }
      }
    }
  }

  /** Every row of the members table comes from a member element of a file
      that parsed, carries that file's abbreviation and name and its
      committee's columns, and has the full name of its member. */
  lemma {:induction false} LoadCommitteeMembershipsProvenance(docs: Corpus)
    ensures forall x :: x in LoadCommitteeMemberships(docs) ==>
              && x.fullName == FullName(x.memberFirst, x.memberLast)
              && exists d :: Some(d) in docs && RowOfDocument(x, d)
  {
    CorpusRowsProvenance(docs);
    forall x | x in LoadCommitteeMemberships(docs)
      ensures x in CorpusRows(docs)
    {
      assert x in multiset(LoadCommitteeMemberships(docs));
    }
  }

  // ---------------------------------------------------------------------
  // Every member element has its row
  // ---------------------------------------------------------------------

  lemma {:induction false} SubcommitteesRowsComplete(abbrev: string, file: string, c: Committee,
                                                     subs: seq<Subcommittee>, s: Subcommittee, m: Member)
    requires s in subs && m in MemberList(s.members)
    ensures RowFor(abbrev, file, c, s.name, s.code, m) in SubcommitteesRows(abbrev, file, c, subs)
  {
    if subs[0] == s {
      var ms := MemberList(s.members);
      var i :| 0 <= i < |ms| && ms[i] == m;
      assert SubcommitteeRows(abbrev, file, c, s)[i] == RowFor(abbrev, file, c, s.name, s.code, m);
    } else {
      SubcommitteesRowsComplete(abbrev, file, c, subs[1..], s, m);
    }
  }

  lemma {:induction false} CommitteesRowsComplete(abbrev: string, file: string, cs: seq<Committee>,
                                                  c: Committee, x: MemberRow)
    requires c in cs && x in CommitteeRows(abbrev, file, c)
    ensures x in CommitteesRows(abbrev, file, cs)
  {
    if cs[0] != c {
      CommitteesRowsComplete(abbrev, file, cs[1..], c, x);
    }
  }

  lemma {:induction false} CorpusRowsComplete(docs: Corpus, d: Document, x: MemberRow)
    requires Some(d) in docs && x in DocumentRows(d)
    ensures x in CorpusRows(docs)
  {
    if docs[0] != Some(d) {
      CorpusRowsComplete(docs[1..], d, x);
    }
  }

  /** A row of a parsed file is a row of the members table. */
  lemma {:induction false} DocumentRowLoaded(docs: Corpus, d: Document, c: Committee, x: MemberRow)
    requires Some(d) in docs && c in d.committees
    requires x in CommitteeRows(FileAbbrev(d.path), SourceFile(d.path), c)
    ensures x in LoadCommitteeMemberships(docs)
  {
    CommitteesRowsComplete(FileAbbrev(d.path), SourceFile(d.path), d.committees, c, x);
    CorpusRowsComplete(docs, d, x);
    assert x in multiset(CorpusRows(docs));
  }

  /** Every direct `member` of every committee of a parsed file has its row,
      with no subcommittee columns, in the members table. */
  lemma {:induction false} DirectMemberLoaded(docs: Corpus, d: Document, c: Committee, m: Member)
    requires Some(d) in docs && c in d.committees && m in MemberList(c.members)
    ensures RowFor(FileAbbrev(d.path), SourceFile(d.path), c, None, None, m)
            in LoadCommitteeMemberships(docs)
  {
    var a := FileAbbrev(d.path);
    var f := SourceFile(d.path);
    var ms := MemberList(c.members);
    var i :| 0 <= i < |ms| && ms[i] == m;
    assert DirectRows(a, f, c)[i] == RowFor(a, f, c, None, None, m);
    DocumentRowLoaded(docs, d, c, RowFor(a, f, c, None, None, m));
  }

  /** Every `member` of every subcommittee of a parsed file has its row,
      carrying that subcommittee's name and code, in the members table. */
  lemma {:induction false} SubcommitteeMemberLoaded(docs: Corpus, d: Document, c: Committee,
                                                    s: Subcommittee, m: Member)
    requires Some(d) in docs && c in d.committees
    requires s in c.subcommittees && m in MemberList(s.members)
    ensures RowFor(FileAbbrev(d.path), SourceFile(d.path), c, s.name, s.code, m)
            in LoadCommitteeMemberships(docs)
  {
    var a := FileAbbrev(d.path);
    var f := SourceFile(d.path);
    SubcommitteesRowsComplete(a, f, c, c.subcommittees, s, m);
    DocumentRowLoaded(docs, d, c, RowFor(a, f, c, s.name, s.code, m));
  }

  // ---------------------------------------------------------------------
  // Skipping unparseable files
  // ---------------------------------------------------------------------

  lemma {:induction false} CorpusRowsAppend(a: Corpus, b: Corpus)
    ensures CorpusRows(a + b) == CorpusRows(a) + CorpusRows(b)
  {
    if |a| > 0 {
      assert (a + b)[0] == a[0];
      assert (a + b)[1..] == a[1..] + b;
      CorpusRowsAppend(a[1..], b);
      var x := FileRows(a[0]);
      calc {
        CorpusRows(a + b);
        x + CorpusRows(a[1..] + b);
        x + (CorpusRows(a[1..]) + CorpusRows(b));
        { SeqAppendAssoc(x, CorpusRows(a[1..]), CorpusRows(b)); }
        (x + CorpusRows(a[1..])) + CorpusRows(b);
        CorpusRows(a) + CorpusRows(b);
      }
    } else {
      assert a + b == b;
    }
  }

  lemma {:induction false} UnparseableFileRows(a: Corpus, b: Corpus)
    ensures CorpusRows(a + [None] + b) == CorpusRows(a + b)
  {
    var skipped: Corpus := [None];
    assert CorpusRows(skipped) == [] by {
      assert skipped[1..] == [];
    }
    CorpusRowsAppend(a + skipped, b);
    CorpusRowsAppend(a, skipped);
    CorpusRowsAppend(a, b);
    assert a + [None] + b == (a + skipped) + b;
  }

  /** A file that fails to parse changes nothing in the members table. */
  lemma {:induction false} UnparseableFileIgnored(a: Corpus, b: Corpus)
    ensures LoadCommitteeMemberships(a + [None] + b) == LoadCommitteeMemberships(a + b)
  {
    UnparseableFileRows(a, b);
  }
}
