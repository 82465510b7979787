/** An already-parsed committee roster file. Every `findtext` lookup is an
    `Option` (`None` when the element is absent) and every `find("members")`
    is an `Option` of the `member` elements it holds. */
module Roster {
  import opened Wrappers
  import opened Text

  /** One `member` element. */
  datatype Member = Member(
    first: Option<string>,     // name/first
    last: Option<string>,      // name/last
    state: Option<string>,
    party: Option<string>,
    position: Option<string>)

  /** One `subcommittee` element; its code is read from `committee_code`. */
  datatype Subcommittee = Subcommittee(
    name: Option<string>,
    code: Option<string>,
    members: Option<seq<Member>>)

  /** One `committees` element, as `root.findall(".//committees")` yields it. */
  datatype Committee = Committee(
    name: Option<string>,
    code: Option<string>,
    majorityParty: Option<string>,
    members: Option<seq<Member>>,
    subcommittees: seq<Subcommittee>)

  /** A roster file that parsed: the path the directory listing gave and the
      committee elements in document order. */
  datatype Document = Document(path: string, committees: seq<Committee>)

  /** The input of every stage: one entry per listed file, `None` for a file
      whose XML did not parse (it is skipped). */
  type Corpus = seq<Option<Document>>

  /** The member elements under an optional `members` element; an absent
      element holds none. */
  function MemberList(ms: Option<seq<Member>>): (r: seq<Member>)
    ensures ms.None? ==> r == []
    ensures ms.Some? ==> r == ms.value
  {
    ms.GetOr([])
  }

  const FilePrefix: string := "committee_memberships_"
  const FileSuffix: string := ".xml"

  /** The `source_file` column: the base name of the path. */
  function SourceFile(path: string): (r: string)
    ensures |r| <= |path| && r == path[|path| - |r|..]
    ensures forall k :: 0 <= k < |r| ==> r[k] != '/'
    ensures |r| < |path| ==> path[|path| - |r| - 1] == '/'
  {
    Basename(path)
  }

  /** The `file_committee_abbrev` column: the base name with every
      occurrence of the prefix deleted, then every occurrence of `.xml`. */
  function FileAbbrev(path: string): (r: string)
    ensures |r| <= |SourceFile(path)|
    ensures forall k :: 0 <= k < |r| ==> r[k] != '/' && r[k] in SourceFile(path)
  {
    RemoveAll(RemoveAll(Basename(path), FilePrefix), FileSuffix)
  }

  /** An occurrence of the prefix cannot reach into the `.xml` suffix,
      because the prefix has no `.`. */
  lemma {:induction false} PrefixAvoidsSuffix(x: string, i: nat)
    requires i <= |x| < i + |FilePrefix|
    ensures !OccursAt(x + FileSuffix, FilePrefix, i)
  {
    if i + |FilePrefix| <= |x + FileSuffix| {
      assert (x + FileSuffix)[i..i + |FilePrefix|][|x| - i] == '.';
      assert FilePrefix[|x| - i] != '.';
    }
  }

  /** An occurrence of `.xml` that starts inside `x` cannot end inside the
      appended `.xml`, because only its first character is a `.`. */
  lemma {:induction false} SuffixAvoidsSuffix(x: string, i: nat)
    requires i < |x| < i + |FileSuffix|
    ensures !OccursAt(x + FileSuffix, FileSuffix, i)
  {
    assert (x + FileSuffix)[i..i + |FileSuffix|][|x| - i] == '.';
    assert FileSuffix[|x| - i] != '.';
  }

  lemma {:induction false} RemovePrefixPart(x: string)
    requires !Contains(x, FilePrefix)
    ensures RemoveAll(FilePrefix + x + FileSuffix, FilePrefix) == x + FileSuffix
  {
    assert FilePrefix + x + FileSuffix == FilePrefix + (x + FileSuffix);
    RemoveAllLeading(FilePrefix, x + FileSuffix);
    forall i: nat | i <= |x + FileSuffix|
      ensures !OccursAt(x + FileSuffix, FilePrefix, i)
    {
      if i + |FilePrefix| <= |x| {
        assert x[i..i + |FilePrefix|] == (x + FileSuffix)[i..i + |FilePrefix|];
        assert !OccursAt(x, FilePrefix, i);
      } else if i <= |x| {
        PrefixAvoidsSuffix(x, i);
      }
    }
    RemoveAllAbsent(x + FileSuffix, FilePrefix);
  }

  lemma {:induction false} RemoveSuffixPart(x: string)
    requires !Contains(x, FileSuffix)
    ensures RemoveAll(x + FileSuffix, FileSuffix) == x
  {
    forall i: nat | i < |x|
      ensures !OccursAt(x + FileSuffix, FileSuffix, i)
    {
      if i + |FileSuffix| <= |x| {
        assert x[i..i + |FileSuffix|] == (x + FileSuffix)[i..i + |FileSuffix|];
        assert !OccursAt(x, FileSuffix, i);
      } else {
        SuffixAvoidsSuffix(x, i);
      }
    }
    RemoveAllSkip(x, FileSuffix, FileSuffix);
    RemoveAllLeading(FileSuffix, []);
    assert FileSuffix + [] == FileSuffix;
  }

  lemma {:induction false} NoSlashInName(name: string)
    requires forall k :: 0 <= k < |name| ==> name[k] != '/'
    ensures Basename(name) == name
  {
    if |name| > 0 {
      NoSlashInName(name[..|name| - 1]);
    }
  }

  /** The file name built from an abbreviation that holds no `/`, no `c`
      (the first character of the prefix) and no `.` gives that abbreviation
      back. */
  lemma {:induction false} RosterFileAbbrev(x: string)
    requires forall k :: 0 <= k < |x| ==> x[k] != '/' && x[k] != 'c' && x[k] != '.'
    ensures FileAbbrev(FilePrefix + x + FileSuffix) == x
  {
    var name := FilePrefix + x + FileSuffix;
    assert forall k :: 0 <= k < |FilePrefix| ==> FilePrefix[k] != '/';
    assert forall k :: 0 <= k < |FileSuffix| ==> FileSuffix[k] != '/';
    assert forall k :: 0 <= k < |name| ==> name[k] != '/' by {
      forall k | 0 <= k < |name|
        ensures name[k] != '/'
      {
        if k < |FilePrefix| {
          assert name[k] == FilePrefix[k];
        } else if k < |FilePrefix| + |x| {
          assert name[k] == x[k - |FilePrefix|];
        } else {
          assert name[k] == FileSuffix[k - |FilePrefix| - |x|];
        }
      }
    }
    NoSlashInName(name);
    FirstCharAbsent(x, FilePrefix);
    FirstCharAbsent(x, FileSuffix);
    FileAbbrevOfRosterName(name, x);
  }

  /** For a file named `committee_memberships_<X>.xml`, in any directory, the
      abbreviation is exactly `X` provided `X` holds neither fixed part. */
  lemma {:induction false} FileAbbrevOfRosterName(path: string, x: string)
    requires Basename(path) == FilePrefix + x + FileSuffix
    requires !Contains(x, FilePrefix) && !Contains(x, FileSuffix)
    ensures FileAbbrev(path) == x
  {
    RemovePrefixPart(x);
    RemoveSuffixPart(x);
  }

  /** A roster name whose abbreviation part splices `.xml` back together
      once the inner `.xml` is deleted. */
  const SplicedName: string := FilePrefix + "X.x.xmlml.xml"

  lemma {:induction false} NoSlashJoin(a: string, b: string)
    requires forall k :: 0 <= k < |a| ==> a[k] != '/'
    requires forall k :: 0 <= k < |b| ==> b[k] != '/'
    ensures forall k :: 0 <= k < |a + b| ==> (a + b)[k] != '/'
  {
    forall k | 0 <= k < |a + b|
      ensures (a + b)[k] != '/'
    {
      if k < |a| {
        assert (a + b)[k] == a[k];
      } else {
        assert (a + b)[k] == b[k - |a|];
      }
    }
  }

  lemma {:induction false} SplicedNameIsBase()
    ensures Basename(SplicedName) == SplicedName
  {
    var rest := "X.x.xmlml.xml";
    assert forall k :: 0 <= k < |FilePrefix| ==> FilePrefix[k] != '/';
    assert forall k :: 0 <= k < |rest| ==> rest[k] != '/';
    NoSlashJoin(FilePrefix, rest);
    NoSlashInName(SplicedName);
  }

  lemma {:induction false} SplicedNamePrefix()
    ensures RemoveAll(Basename(SplicedName), FilePrefix) == "X.x.xmlml.xml"
  {
    var rest := "X.x.xmlml.xml";
    SplicedNameIsBase();
    RemoveAllLeading(FilePrefix, rest);
    assert forall k :: 0 <= k < |rest| ==> rest[k] != FilePrefix[0];
    FirstCharAbsent(rest, FilePrefix);
    RemoveAllAbsent(rest, FilePrefix);
  }

  lemma {:induction false} SplicedNameSuffix()
    ensures RemoveAll("X.x.xmlml.xml", FileSuffix) == "X.xml"
  {
    var tail := "ml" + FileSuffix;
    SplicedHead();
    RemoveAllLeading(FileSuffix, tail);
    SplicedTail();
  }

  lemma {:induction false} SplicedHead()
    ensures RemoveAll("X.x.xmlml.xml", FileSuffix) == "X.x" + RemoveAll(FileSuffix + ("ml" + FileSuffix), FileSuffix)
  {
    var s := "X.x.xmlml.xml";
    assert s == "X.x" + (FileSuffix + ("ml" + FileSuffix));
    assert s[0..4][0] == 'X';
    assert s[1..5][2] == '.';
    assert s[2..6][0] == 'x';
    assert !OccursAt(s, FileSuffix, 0) && !OccursAt(s, FileSuffix, 1) && !OccursAt(s, FileSuffix, 2);
    RemoveAllSkip("X.x", FileSuffix + ("ml" + FileSuffix), FileSuffix);
  }

  lemma {:induction false} SplicedTail()
    ensures RemoveAll("ml" + FileSuffix, FileSuffix) == "ml"
  {
    var tail := "ml" + FileSuffix;
    assert tail[0..4][0] == 'm';
    assert tail[1..5][0] == 'l';
    RemoveAllSkip("ml", FileSuffix, FileSuffix);
    RemoveAllLeading(FileSuffix, []);
    assert FileSuffix + [] == FileSuffix;
  }

  /** The abbreviation is not validated: a name that splices `.xml` back
      together keeps it. */
  lemma {:induction false} FileAbbrevSplicedSuffix()
    ensures FileAbbrev(SplicedName) == "X.xml"
  {
    SplicedNamePrefix();
    SplicedNameSuffix();
  }
}
