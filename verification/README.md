# Senate committee roster parser — a Dafny model

`senate_committ_xml_parser.py` reads the Senate's `committee_memberships_*.xml`
roster files and builds three pandas tables from them:

1. **members** (`load_committee_memberships`). Each `member` element of a
   committee or subcommittee becomes one row. The row carries:
   - the file's committee abbreviation (the base name with
     `committee_memberships_` and `.xml` deleted);
   - the committee's name, code and majority party;
   - for a subcommittee member, the subcommittee's name and code;
   - the member's name parts, state, party and position;
   - the source file name;
   - a `full_name` built from the stripped first and last names.

   The table is sorted by (abbreviation, committee name, subcommittee name,
   last name).
2. **hierarchy** (`build_committee_hierarchy_map`). Each committee contributes
   one synthetic row with subcommittee code `MAIN` and level `Main Committee`.
   Each subcommittee contributes one row of level `Subcommittee`. Whole-row
   duplicates are dropped, and the table is sorted by (abbreviation, committee
   code, subcommittee code).
3. **merged** (`get_members_with_hierarchy`). A missing subcommittee code in
   the members table becomes `MAIN`. The members table is then left-joined
   with the hierarchy table on (abbreviation, committee code, subcommittee
   code) and sorted like the members table.

How the model represents these:
- The parsed XML is a `Roster.Corpus`: one entry per listed file, with `None`
  for a file whose XML does not parse.
- Every `findtext` is an `Option<string>`.
- Every `find("members")` is an `Option` of the member elements under it.
- A pandas cell is a `Table.Cell` (`Option<string>`, where `None` is NaN).

Modules:
- `Wrappers`: the `Option` type.
- `Text`: Python's `str.strip`, `os.path.basename` and `str.replace(p, "")`.
- `Table`: the pandas pieces.
  - `sort_values` on several columns is a stable sort, lexicographic over the
    key columns, with NaN last in each column.
  - `drop_duplicates` keeps first occurrences.
- `Roster`: the parsed file tree and the file-name abbreviation.
- `Members`, `Hierarchy`, `Merge`: the three stages.
- `Scenario`: a one-committee roster worked through all three stages.

Behaviours of the code that the model keeps as written:
- The hierarchy's `drop_duplicates` compares whole rows. Two different
  subcommittees that share a code therefore both stay, with the same join
  key. A member of either one then joins both rows (`Hierarchy.HierarchyKeysMayRepeat`,
  `Merge.SharedCodeJoinsBoth`).
  In general the join has one row per match of each member row
  (`Merge.LeftJoin`). The one-row-per-member result, `Merge.MergedRowPerMember`,
  is stated under the assumption that keys are unique.
- `fillna("MAIN")` fills every missing subcommittee code. This includes
  members of a subcommittee that has no `committee_code` element, so they
  join their committee's `MAIN` row.
- `str.replace(".xml", "")` deletes every occurrence, not only the
  extension. For example, `committee_memberships_X.x.xmlml.xml` gives `X.xml`
  (`Roster.FileAbbrevSplicedSuffix`).

## Model

| member | source | states |
|---|---|---|
| Text.Strip | senate_committ_xml_parser.py:104 | the result is the input with a run of whitespace removed from each end, and it neither starts nor ends with whitespace |
| Text.StripIdempotent | senate_committ_xml_parser.py:104 | stripping twice is the same as stripping once |
| Text.StripUnpadded | senate_committ_xml_parser.py:104 | a non-empty name with no whitespace at either end is left unchanged by strip |
| Text.Basename | senate_committ_xml_parser.py:43 | the base name is the longest suffix of the path with no `/`: unless it is the whole path, the character before it is a `/` |
| Text.RemoveAll | senate_committ_xml_parser.py:44-45 | deleting a pattern never lengthens the text and keeps only characters of the text |
| Text.RemoveAllAbsent | senate_committ_xml_parser.py:44-45 | deleting a pattern that does not occur leaves the text unchanged |
| Text.RemoveAllLeading | senate_committ_xml_parser.py:44 | deleting every occurrence of a pattern removes a leading occurrence |
| Text.RemoveAllSkip | senate_committ_xml_parser.py:44-45 | text in which no occurrence starts is kept verbatim in front of the remainder's deletion |
| Roster.SourceFile | senate_committ_xml_parser.py:75 | the `source_file` column is the base name: the longest suffix of the path that contains no `/`, so unless it is the whole path the character before it is a `/` |
| Roster.FileAbbrev | senate_committ_xml_parser.py:43-45 | the abbreviation is no longer than the base name, contains no `/`, and is made of the base name's characters |
| Roster.RosterFileAbbrev | senate_committ_xml_parser.py:43-45 | for a plain abbreviation, the name `committee_memberships_<abbr>.xml` gives back `<abbr>` |
| Roster.FileAbbrevOfRosterName | senate_committ_xml_parser.py:43-45 | when the base name is prefix + x + `.xml` and x contains neither pattern, the abbreviation is x, whatever directory the path names |
| Roster.FileAbbrevSplicedSuffix | senate_committ_xml_parser.py:45 | an interior `.xml` is deleted too, so the abbreviation can still end in `.xml` |
| Members.FullName | senate_committ_xml_parser.py:104 | full_name is missing exactly when either name part is missing; otherwise it is split at a space into a left part and a right part, where each part is its name with surrounding whitespace stripped and neither starts nor ends with whitespace |
| Members.FullNameOfUnpadded | senate_committ_xml_parser.py:104 | names without surrounding whitespace are joined with a single space |
| Members.DirectRows | senate_committ_xml_parser.py:59-76 | one row per `member` of the committee, in order, with no subcommittee name or code and every other column taken from the file, committee and member |
| Members.AbsentMembersNoDirectRows | senate_committ_xml_parser.py:60-62 | a committee without a `members` element has no direct-member rows, so its rows are only those of its subcommittees |
| Members.AbsentMembersNoSubcommitteeRows | senate_committ_xml_parser.py:83-85 | a subcommittee without a `members` element contributes no rows and leaves the rows of the later subcommittees unchanged |
| Members.SubcommitteeRows | senate_committ_xml_parser.py:78-99 | one row per `member` of the subcommittee, in order, carrying the subcommittee's name and code |
| Members.SubcommitteesRows | senate_committ_xml_parser.py:79-99 | the subcommittees of a committee contribute one row per `member` element of each of them |
| Members.CommitteeRows | senate_committ_xml_parser.py:54-99 | a committee contributes one row per direct `member` plus one per subcommittee `member`, with its direct members first |
| Members.CommitteesRows | senate_committ_xml_parser.py:54-99 | the committees of a file contribute one row per `member` element under any of them |
| Members.DocumentRows | senate_committ_xml_parser.py:42-99 | a parsed file contributes one row per `member` element under its committees |
| Members.CorpusRows | senate_committ_xml_parser.py:42-99 | the collected rows number exactly the `member` elements of the parsed files, counted committee by committee and subcommittee by subcommittee |
| Members.LoadCommitteeMemberships | senate_committ_xml_parser.py:101-109 | the table is a permutation of the collected rows, sorted by the four sort columns |
| Members.LoadRowCount | senate_committ_xml_parser.py:54-109 | the table has exactly one row per `member` element of the parsed files |
| Members.LoadCommitteeMembershipsProvenance | senate_committ_xml_parser.py:54-99 | every row of the table comes from a parsed file, one of its committees and one member element of that committee or of one of its subcommittees |
| Members.DocumentRowLoaded | senate_committ_xml_parser.py:54-109 | a row that a committee of a parsed file contributes is a row of the members table |
| Members.DirectMemberLoaded | senate_committ_xml_parser.py:59-76 | every direct `member` of every committee of a parsed file has its row, without subcommittee columns, in the members table |
| Members.SubcommitteeMemberLoaded | senate_committ_xml_parser.py:78-99 | every `member` of every subcommittee of a parsed file has its row, with that subcommittee's name and code, in the members table |
| Members.UnparseableFileIgnored | senate_committ_xml_parser.py:47-52 | inserting a file that fails to parse anywhere in the listing leaves the members table unchanged |
| Members.CorpusRowsAppend | senate_committ_xml_parser.py:42 | the rows of two listings concatenated are the rows of each, in listing order |
| Members.DirectRowSortsLast | senate_committ_xml_parser.py:107-109 | within one committee, direct members (no subcommittee name) sort after every subcommittee member, because NaN sorts last |
| Table.CellLeMissingLast | senate_committ_xml_parser.py:107-109 | a missing value sorts after every value, and only a missing value sorts at or after a missing value |
| Table.StrLeIsLexicographic | senate_committ_xml_parser.py:107-109 | string order is lexicographic: a proper prefix comes first, otherwise the first differing character decides |
| Table.KeyLeTotal | senate_committ_xml_parser.py:107-109 | any two sort keys are comparable |
| Table.KeyLeTransitive | senate_committ_xml_parser.py:107-109 | the multi-column order is transitive |
| Table.KeyLeAntisymmetric | senate_committ_xml_parser.py:107-109 | two keys that are each at most the other are equal |
| Table.KeyLeFirstDifference | senate_committ_xml_parser.py:107-109 | keys are compared by the first column in which they differ |
| Table.SortBy | senate_committ_xml_parser.py:107-109 | sorting gives a permutation of its input that is ordered by the key |
| Table.SortByStable | senate_committ_xml_parser.py:107-109 | rows with equal keys keep their relative order |
| Table.SortBySortedIsIdentity | senate_committ_xml_parser.py:197-199 | sorting an already ordered table changes nothing |
| Table.DropDuplicates | senate_committ_xml_parser.py:167 | the result has no repeated row, holds every input row and nothing else, and is no longer than the input |
| Table.DropDuplicatesPrefix | senate_committ_xml_parser.py:167 | rows are kept in order of first occurrence: deduplicating a first part of the table gives the first rows of the whole result |
| Table.DropDuplicatesOfNoDup | senate_committ_xml_parser.py:167 | a table without repeated rows is returned unchanged |
| Table.DropDuplicatesIdempotent | senate_committ_xml_parser.py:167 | dropping duplicates twice is the same as dropping them once |
| Hierarchy.CommitteeHierarchy | senate_committ_xml_parser.py:142-164 | a committee contributes its MAIN row first, then one Subcommittee row per subcommittee in order |
| Hierarchy.CommitteesHierarchy | senate_committ_xml_parser.py:138-164 | the committees of a file contribute one row each plus one per subcommittee |
| Hierarchy.FileHierarchy | senate_committ_xml_parser.py:126-164 | a file that did not parse contributes no hierarchy rows, and a parsed file one per committee plus one per subcommittee |
| Hierarchy.CorpusHierarchy | senate_committ_xml_parser.py:126-164 | the raw table has one row per committee plus one per subcommittee of the parsed files |
| Hierarchy.CorpusHierarchyAppend | senate_committ_xml_parser.py:126 | the raw rows of two listings concatenated are the rows of each, in listing order |
| Hierarchy.UnparseableFileHierarchyRows | senate_committ_xml_parser.py:131-136 | a file that fails to parse contributes no raw hierarchy rows wherever it is listed |
| Hierarchy.UnparseableFileIgnoredByHierarchy | senate_committ_xml_parser.py:131-169 | inserting a file that fails to parse anywhere in the listing leaves the hierarchy table unchanged |
| Hierarchy.BuildCommitteeHierarchyMap | senate_committ_xml_parser.py:166-169 | the table has no repeated row, holds exactly the rows the committees contribute, and is ordered by (abbreviation, committee code, subcommittee code) |
| Hierarchy.CommitteesHierarchyComplete | senate_committ_xml_parser.py:138-164 | each committee of a file contributes its MAIN row and the row of every one of its subcommittees, whether or not it lists members |
| Hierarchy.FileRowsInCorpus | senate_committ_xml_parser.py:126-164 | a row that one parsed file contributes is a row of the raw table of the whole listing |
| Hierarchy.HierarchyMapComplete | senate_committ_xml_parser.py:126-169 | every row a parsed file contributes is still in the finished table after duplicates are dropped and rows sorted |
| Hierarchy.HierarchyMapSound | senate_committ_xml_parser.py:138-164 | every row of the table is the MAIN row or a subcommittee row of some committee of some parsed file |
| Hierarchy.HierarchyKeysMayRepeat | senate_committ_xml_parser.py:153-169 | two differently named subcommittees that share a code both survive, as distinct rows with the same join key |
| Merge.FillMainRow | senate_committ_xml_parser.py:185 | a missing subcommittee code becomes MAIN, a present one is kept, nothing else in the row changes, and the sort key is unchanged |
| Merge.FillMain | senate_committ_xml_parser.py:185 | the filled table has the same length and each row is the corresponding row with its code filled |
| Merge.FillMainSorted | senate_committ_xml_parser.py:185 | filling codes keeps a sorted members table sorted |
| Merge.Matches | senate_committ_xml_parser.py:188-194 | the hierarchy rows a member joins are exactly those with the same abbreviation, committee code and subcommittee code |
| Merge.MatchesInTableOrder | senate_committ_xml_parser.py:188-194 | the matches of a member row keep the hierarchy table's order |
| Merge.RowsFor | senate_committ_xml_parser.py:188-194 | a member row yields one merged row per matching hierarchy row, and every match appears; with no match it yields exactly one row whose hierarchy columns are all missing |
| Merge.LeftJoin | senate_committ_xml_parser.py:188-194 | the join has exactly as many rows as its member rows' matches, counting one for a member row with no match, and every member row is joined with every hierarchy row that matches it |
| Merge.LeftJoinAppend | senate_committ_xml_parser.py:188-194 | the join keeps member order: the join of two parts of the members table is the join of the first followed by the join of the second |
| Merge.LeftJoinSingle | senate_committ_xml_parser.py:188-194 | a single member row is joined to exactly the rows it contributes on its own |
| Merge.LeftJoinSound | senate_committ_xml_parser.py:188-194 | every merged row comes from a member row and is joined from it |
| Merge.LeftJoinKeepsEveryRow | senate_committ_xml_parser.py:188-194 | no member row is lost by the left join |
| Merge.LeftJoinUniqueKeys | senate_committ_xml_parser.py:188-194 | with unique hierarchy keys the join has exactly one merged row per member row, in the same order |
| Merge.LeftJoinSorted | senate_committ_xml_parser.py:188-199 | the join of a sorted members table is already sorted by the final sort columns |
| Merge.GetMembersWithHierarchy | senate_committ_xml_parser.py:176-199 | the merged table is a permutation of the left join of the filled members table with the hierarchy table, and it is sorted |
| Merge.MergedTableCoversMembers | senate_committ_xml_parser.py:181-199 | the merged table has at least one row per `member` element |
| Merge.SortedJoinNeedsNoSort | senate_committ_xml_parser.py:185-199 | for any sorted members table, sorting its left join again by the same columns returns the join unchanged |
| Merge.FinalSortIsIdentity | senate_committ_xml_parser.py:196-199 | the final sort returns the left join in its own order |
| Merge.JoinedRowPerMember | senate_committ_xml_parser.py:185-199 | for a sorted members table and a hierarchy table with unique keys, the sorted join has one row per member row, in the same positions, code filled |
| Merge.MergedRowPerMember | senate_committ_xml_parser.py:181-199 | with unique hierarchy keys, row i of the merged table is row i of the members table with its code filled |
| Merge.MemberRowHasHierarchyRow | senate_committ_xml_parser.py:181-194 | every member row finds a hierarchy row with its join key |
| Merge.EveryMergedRowMatched | senate_committ_xml_parser.py:181-194 | no merged row lacks its hierarchy columns: each is its member row joined with a matching hierarchy row |
| Merge.MatchingPairMerged | senate_committ_xml_parser.py:181-199 | every pairing of a loaded member row, code filled, with a hierarchy row of the same join key is a row of the merged table |
| Merge.SharedCodeJoinsBoth | senate_committ_xml_parser.py:153-194 | a member of one of two differently named subcommittees that share a code is joined with both subcommittee rows: the merged table holds both joined rows, and they differ |
| Merge.UnparseableFileIgnoredByMerge | senate_committ_xml_parser.py:47-52 | inserting a file that fails to parse anywhere in the listing leaves the merged table unchanged |
| Merge.DirectMemberJoinsMainRow | senate_committ_xml_parser.py:184-194 | when no subcommittee is coded MAIN, a direct committee member joins at level "Main Committee" |
| Scenario.BankingMembers | senate_committ_xml_parser.py:54-109 | for a one-committee roster, the subcommittee member sorts before the direct member, with abbreviation and full name filled in |
| Scenario.BankingHierarchy | senate_committ_xml_parser.py:138-169 | the same roster gives a MAIN row followed by its subcommittee row |
| Scenario.LeftJoinPair | senate_committ_xml_parser.py:188-194 | two member rows, each matching exactly one of two hierarchy rows, give two joined rows in member order |
| Scenario.SmallRosterMerged | senate_committ_xml_parser.py:176-199 | in a file with one committee, one direct member and one single-member subcommittee coded after MAIN, the subcommittee member is joined with the subcommittee row and then the direct member, filled with MAIN, with the main row |
| Scenario.BankingMerged | senate_committ_xml_parser.py:176-199 | for the Banking roster, Tom Lee carries level Subcommittee and the Housing and Banking names; Jane Doe carries code MAIN, level Main Committee, and the Banking and Main Committee names |

## Left out

- File discovery (`glob`) and XML parsing are not modelled. The listing and
  the parsed trees are the `Corpus` input, and a file that does not parse is
  a `None` entry.
- The order of the files is whatever the listing gives. The two stages'
  separate `glob` calls are assumed to see the same files in the same order.
- `print` of the skipped-file message and the `__main__` preview are I/O.
- `reset_index(drop=True)` is not modelled: row positions in a sequence play
  the role of the index.
- The column order and the `_hierarchy` name suffixes are modelled as named
  fields of `Merge.MergedRow`, not as pandas column labels.
- The `KeyError`s of empty tables are not modelled. The model returns an empty
  table in each case:
  - with no member rows at all, line 104 indexes `members_df["member_first"]`
    and raises `KeyError`. This includes files that hold committees but no
    members, where the model gives an empty members table next to a
    non-empty hierarchy table;
  - with no committees at all, lines 167-168 sort an empty hierarchy table by
    columns it does not have and raise `KeyError`.
- NaN handling is modelled as `None`, and `None + " "` as a missing
  `full_name`.
- `full_name` is computed when each row is built, not as a column
  operation on the finished table. Both give the same value.
