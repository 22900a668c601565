/**
 The release-notes extraction of `publish-github/action.py`: the changelog
 text is cut at every "\n## CHANGES WITH ", the first line of what comes
 before the first cut is the document header, each later piece is one
 release section keyed by the text before its first colon, the section of
 the requested version is trimmed and indented under the header, and the
 argument vector for `gh release create` is assembled.

 The command-line arguments and the text of NEWS.md are parameters here;
 running `gh` is not modelled: the model stops at the argument vector and
 the text that would be piped to its standard input.
 */
module Action {
  import opened PyStr
  import opened PyDict

  datatype Result<+T, +E> = Ok(value: T) | Err(error: E)

  /** The two ways the script stops before it runs `gh`. */
  datatype Failure =
    | NoHeaderLine                     // `splitlines()[0]` on an empty preamble: IndexError
    | UnknownVersion(version: string)  // `notes[version]` with no such key: KeyError

  /** What is handed to `gh`: its argument vector and the text on its standard input. */
  datatype Release = Release(args: seq<string>, notes: string)

  /** The heading that opens every release section. */
  const Marker: string := "## CHANGES WITH "

  /** The separator the changelog is cut at: a line break followed by the heading. */
  const Delimiter: string := "\n" + Marker

  // ------------------------------------------------------------ the delimiter

  /** No proper prefix of the delimiter is also a suffix of it: the line break
      it starts with appears nowhere else in it. */
  lemma DelimiterHasNoBorder(m: nat)
    requires 0 < m < |Delimiter|
    ensures Delimiter[..m] != Delimiter[|Delimiter| - m..]
  {
    assert '\n' !in Marker;
    assert Delimiter[..m][0] == '\n';
    assert Delimiter[|Delimiter| - m..][0] == Marker[|Delimiter| - m - 1];
  }

  /** Because the delimiter has no border, a piece that does not contain it first
      meets it where the delimiter after the piece begins. */
  lemma DelimiterAfterPiece(a: string)
    requires !Contains(a, Delimiter)
    ensures Find(a + Delimiter, Delimiter) == |a|
  {
    var s := a + Delimiter;
    var d := |Delimiter|;
    assert s[|a|..|a| + d] == Delimiter;
    forall j | 0 <= j < |a| ensures !OccursAt(s, Delimiter, j) {
      if OccursAt(s, Delimiter, j) {
        if j + d <= |a| {
          OccursInsidePrefix(s, Delimiter, |a|, j);
        } else {
          var m := j + d - |a|;
          assert Delimiter[|Delimiter| - m..] == s[|a|..j + d] by {
            assert s[j..j + d][|a| - j..] == s[|a|..j + d];
          }
          assert Delimiter[..m] == s[|a|..j + d];
          DelimiterHasNoBorder(m);
          assert false;
        }
      }
    }
    FindIsFirst(s, Delimiter, |a|);
  }

  /** Line 24 cuts the changelog unambiguously: any pieces that join back into
      the text and contain no delimiter are exactly the pieces of the split. */
  lemma {:induction false} ChangelogSplitUnique(pieces: seq<string>, content: string)
    requires |pieces| >= 1
    requires Join(pieces, Delimiter) == content
    requires forall k :: 0 <= k < |pieces| ==> !Contains(pieces[k], Delimiter)
    ensures pieces == Split(content, Delimiter)
  {
    forall k | 0 <= k < |pieces| - 1 ensures Find(pieces[k] + Delimiter, Delimiter) == |pieces[k]| {
      DelimiterAfterPiece(pieces[k]);
    }
    LeftmostSplitUnique(pieces, content, Delimiter);
  }

  /** Line 24: the split gives the preamble and one release section per delimiter
      occurrence, joining the pieces gives the changelog back, and no piece
      contains the delimiter. */
  lemma ChangelogSplit(content: string)
    ensures |Split(content, Delimiter)| == Count(content, Delimiter) + 1
    ensures Join(Split(content, Delimiter), Delimiter) == content
    ensures forall k :: 0 <= k < |Split(content, Delimiter)| ==> !Contains(Split(content, Delimiter)[k], Delimiter)
  {
    SplitCount(content, Delimiter);
    SplitJoin(content, Delimiter);
    SplitPiecesFree(content, Delimiter);
  }

  /** The preamble is empty exactly when the changelog is empty or starts with the delimiter. */
  lemma PreambleEmpty(content: string)
    ensures Split(content, Delimiter)[0] == [] <==>
      content == [] || (|Delimiter| <= |content| && content[..|Delimiter|] == Delimiter)
  {
    var i := Find(content, Delimiter);
    if |Delimiter| <= |content| && content[..|Delimiter|] == Delimiter {
      FindIsFirst(content, Delimiter, 0);
    } else {
      assert !OccursAt(content, Delimiter, 0);
    }
  }

  // -------------------------------------------------------------- the header

  /** Line 25: `sections[0].splitlines()[0]`, the first line of the preamble;
      an empty preamble has no lines and the indexing fails. */
  function HeaderLine(preamble: string): (r: Result<string, Failure>)
    ensures r.Err? <==> preamble == []
    ensures r.Err? ==> r.error == NoHeaderLine
    ensures r.Ok? ==> var h := r.value;
      && |h| <= |preamble| && h == preamble[..|h|]
      && NoLineBreak(h)
      && (|h| == |preamble| || IsLineBreak(preamble[|h|]))
  {
    var lines := SplitLines(preamble);
    if |lines| == 0 then Err(NoHeaderLine)
    else
      FirstLine(preamble);
      Ok(lines[0])
  }

  // --------------------------------------------------------- the version key

  /** Line 28: `v[:v.find(":")]`. With a colon this is the text before the first
      one; without, `find` gives -1 and the slice drops the last character. */
  function VersionKey(section: string): (key: string)
    ensures |key| <= |section| && key == section[..|key|]
    ensures ':' !in key
    ensures ':' in section ==> |key| < |section| && section[|key|] == ':'
    ensures ':' !in section ==> |key| == if section == [] then 0 else |section| - 1
  {
    FindChar(section, ':');
    SlicePrefix(section, Find(section, ":"))
  }

  /** The key is determined by the first colon: it is the text before it. */
  lemma VersionKeyBeforeColon(section: string, i: nat)
    requires i < |section| && section[i] == ':' && ':' !in section[..i]
    ensures VersionKey(section) == section[..i]
  {
  }

  // ---------------------------------------------------------------- the lookup

  /** Line 28: `map(lambda v: (key(v), v), releases)`, the pairs the dictionary is built from. */
  function Entries(releases: seq<string>): seq<(string, string)> {
    seq(|releases|, i requires 0 <= i < |releases| => (VersionKey(releases[i]), releases[i]))
  }

  /** The comprehension of `Entries` read element by element. */
  lemma EntriesShape(releases: seq<string>)
    ensures |Entries(releases)| == |releases|
    ensures forall i :: 0 <= i < |releases| ==> Entries(releases)[i] == (VersionKey(releases[i]), releases[i])
  {
  }

  /** `j` is the last section, in document order, whose key is `version`. */
  ghost predicate IsLastSection(releases: seq<string>, version: string, j: int) {
    && 0 <= j < |releases|
    && VersionKey(releases[j]) == version
    && forall j' :: j < j' < |releases| ==> VersionKey(releases[j']) != version
  }

  /** Some section has the key `version`. */
  ghost predicate HasSection(releases: seq<string>, version: string) {
    exists j :: 0 <= j < |releases| && VersionKey(releases[j]) == version
  }

  /** The dictionary built from the pairs holds `version` exactly when some section
      carries that key, and binds it to the last section carrying it. */
  lemma EntriesLastWins(releases: seq<string>, version: string)
    ensures version in FromPairs(Entries(releases)) <==> HasSection(releases, version)
    ensures version in FromPairs(Entries(releases)) ==>
      exists j :: IsLastSection(releases, version, j) && FromPairs(Entries(releases))[version] == releases[j]
  {
    var pairs := Entries(releases);
    EntriesShape(releases);
    FromPairsLastWins(pairs, version);
    if HasKey(pairs, version) {
      var i :| 0 <= i < |pairs| && pairs[i].0 == version;
      assert VersionKey(releases[i]) == version;
      var j :| IsLastWithKey(pairs, version, j) && FromPairs(pairs)[version] == pairs[j].1;
      assert IsLastSection(releases, version, j);
    }
    if HasSection(releases, version) {
      var j :| 0 <= j < |releases| && VersionKey(releases[j]) == version;
      assert pairs[j].0 == version;
    }
  }

  /** `EntriesLastWins` for every version at once. */
  lemma EntriesDict(releases: seq<string>)
    ensures forall v :: v in FromPairs(Entries(releases)) <==> HasSection(releases, v)
    ensures forall v :: v in FromPairs(Entries(releases)) ==>
      exists j :: IsLastSection(releases, v, j) && FromPairs(Entries(releases))[v] == releases[j]
  {
    forall v {
      EntriesLastWins(releases, v);
    }
  }

  /** Line 28: the dictionary from version key to section. Its keys are exactly the
      keys of the sections, each bound to the last section carrying it (later
      sections shadow earlier ones), and it has at most one key per section. */
  function NotesByVersion(releases: seq<string>): (notes: map<string, string>)
    ensures forall v :: v in notes <==> HasSection(releases, v)
    ensures forall v :: v in notes ==> exists j :: IsLastSection(releases, v, j) && notes[v] == releases[j]
    ensures |notes| <= |releases|
  {
    var notes := FromPairs(Entries(releases));
    FromPairsSize(Entries(releases));
    EntriesDict(releases);
    notes
  }

  /** Line 29: `notes[version]`. It fails exactly when no section has the key, and
      otherwise gives the last section that has it (later ones shadow earlier ones). */
  function SelectSection(releases: seq<string>, version: string): (r: Result<string, Failure>)
    ensures r.Err? <==> forall j :: 0 <= j < |releases| ==> VersionKey(releases[j]) != version
    ensures r.Err? ==> r.error == UnknownVersion(version)
    ensures r.Ok? ==> exists j :: IsLastSection(releases, version, j) && r.value == releases[j]
  {
    var notes := NotesByVersion(releases);
    if version in notes then Ok(notes[version]) else Err(UnknownVersion(version))
  }

  /** When no two sections share a key, no section is shadowed: the dictionary
      has exactly one key per section. */
  lemma NotesByVersionDistinct(releases: seq<string>)
    requires forall i, j :: 0 <= i < j < |releases| ==> VersionKey(releases[i]) != VersionKey(releases[j])
    ensures |NotesByVersion(releases)| == |releases|
  {
    var pairs := Entries(releases);
    assert forall i, j :: 0 <= i < j < |pairs| ==> pairs[i].0 != pairs[j].0;
    FromPairsDistinct(pairs);
  }

  // ------------------------------------------------------ formatting and args

  /** Line 31: the header indented by four spaces, a blank line, then the
      indented heading followed by the selected notes. */
  function Relnotes(header: string, notes: string): string {
    "    " + header + "\n\n    " + Marker + notes
  }

  /** Indenting a line adds no line break to it. */
  lemma IndentNoBreak(line: string)
    requires NoLineBreak(line)
    ensures NoLineBreak("    " + line)
  {
    var indented := "    " + line;
    forall k | 4 <= k < |indented| ensures !IsLineBreak(indented[k]) {
      assert indented[k] == line[k - 4];
    }
  }

  /** The formatted text opens with the indented header as its whole first line,
      then exactly one blank line, then the indented heading and the notes. */
  lemma RelnotesLines(header: string, notes: string)
    requires NoLineBreak(header)
    ensures SplitLines(Relnotes(header, notes)) ==
      ["    " + header, ""] + SplitLines("    " + Marker + notes)
  {
    var first := "    " + header;
    var rest := "    " + Marker + notes;
    IndentNoBreak(header);
    assert Relnotes(header, notes) == first + "\n\n" + rest;
    SplitLinesBlankLine(first, rest);
  }

  /** Lines 37-46: the argument vector of `gh release create`. */
  function ReleaseArgs(title: string, repo: string, tag: string, version: string): (args: seq<string>)
    ensures |args| == 11
    ensures args[2] == "--repo" && args[3] == repo
    ensures args[6] == "--title" && args[7] == title + "-" + version
    ensures args[|args| - 1] == tag
  {
    ["gh", "release", "--repo", repo, "create", "--verify-tag",
     "--title", title + "-" + version, "--notes-file", "-", tag]
  }

  // ----------------------------------------------------------- the whole script

  /** Lines 24-46: what the script hands to `gh`, or why it stops before running it.
      The header is taken (line 25) before the version is looked up (line 29), so an
      empty preamble is reported even when the version is also missing. */
  function Publish(content: string, title: string, repo: string, tag: string, version: string)
    : (r: Result<Release, Failure>)
    ensures r == Err(NoHeaderLine) <==> Split(content, Delimiter)[0] == []
    ensures r == Err(UnknownVersion(version)) <==>
      && Split(content, Delimiter)[0] != []
      && forall j :: 1 <= j < |Split(content, Delimiter)| ==> VersionKey(Split(content, Delimiter)[j]) != version
    ensures r.Err? ==> r.error == NoHeaderLine || r.error == UnknownVersion(version)
    ensures r.Ok? ==> r.value.args == ReleaseArgs(title, repo, tag, version)
    ensures r.Ok? ==>
      var sections := Split(content, Delimiter);
      && sections[0] != []
      && exists j :: IsLastSection(sections[1..], version, j)
           && r.value.notes == Relnotes(SplitLines(sections[0])[0], Strip(sections[1..][j]))
  {
    var sections := Split(content, Delimiter);
    var releases := sections[1..];
    assert forall j :: 1 <= j < |sections| ==> sections[j] == releases[j - 1];
    match HeaderLine(sections[0])
    case Err(e) => Err(e)
    case Ok(header) =>
      match SelectSection(releases, version)
      case Err(e) => Err(e)
      case Ok(section) => Ok(Release(ReleaseArgs(title, repo, tag, version), Relnotes(header, Strip(section))))
  }

  /** A changelog that is empty or begins with the delimiter has no header line,
      and the script stops before anything is handed to `gh`. */
  lemma PublishNeedsPreamble(content: string, title: string, repo: string, tag: string, version: string)
    ensures Publish(content, title, repo, tag, version) == Err(NoHeaderLine) <==>
      content == [] || (|Delimiter| <= |content| && content[..|Delimiter|] == Delimiter)
  {
    PreambleEmpty(content);
  }

  // ------------------------------------------------------------- an example

  /** The pieces the example below is cut into at line 24. */
  const ExamplePreamble: string := "MyApp NEWS\n"
  const ExampleRelease12: string := "1.2.0: 2024-01-01\n- Fixed bug X."
  const ExampleRelease11: string := "1.1.0: 2023-06-01\n- Initial release.\n"

  /** A changelog with a preamble and two releases, 1.2.0 above 1.1.0. */
  const ExampleNews: string :=
    ExamplePreamble + Delimiter + ExampleRelease12 + Delimiter + ExampleRelease11

  /** Every occurrence of the delimiter has `#` right after its line break. */
  lemma DelimiterHash(s: string, i: int)
    ensures OccursAt(s, Delimiter, i) ==> s[i + 1] == '#'
  {
    if OccursAt(s, Delimiter, i) {
      assert s[i + 1] == s[i..i + |Delimiter|][1];
    }
  }

  /** A text without `#` cannot contain the delimiter. */
  lemma NoHashNoDelimiter(s: string)
    requires '#' !in s
    ensures !Contains(s, Delimiter)
  {
    forall i | 0 <= i <= |s| - |Delimiter| ensures !OccursAt(s, Delimiter, i) {
      DelimiterHash(s, i);
    }
  }

  lemma ExampleSplit()
    ensures Split(ExampleNews, Delimiter) == [ExamplePreamble, ExampleRelease12, ExampleRelease11]
  {
    var pieces := [ExamplePreamble, ExampleRelease12, ExampleRelease11];
    JoinCons(ExampleRelease12, [ExampleRelease11], Delimiter);
    assert [ExampleRelease12] + [ExampleRelease11] == pieces[1..];
    JoinCons(ExamplePreamble, pieces[1..], Delimiter);
    assert [ExamplePreamble] + pieces[1..] == pieces;
    assert Join(pieces, Delimiter) == ExampleNews;
    NoHashNoDelimiter(ExamplePreamble);
    NoHashNoDelimiter(ExampleRelease12);
    NoHashNoDelimiter(ExampleRelease11);
    ChangelogSplitUnique(pieces, ExampleNews);
  }

  lemma ExampleHeader()
    ensures HeaderLine(ExamplePreamble) == Ok("MyApp NEWS")
  {
    assert ExamplePreamble == "MyApp NEWS" + "\n" + [];
    SplitLinesBreak("MyApp NEWS", '\n', []);
  }

  lemma ExampleKey12()
    ensures VersionKey(ExampleRelease12) == "1.2.0"
  {
    assert ExampleRelease12[..5] == "1.2.0";
    VersionKeyBeforeColon(ExampleRelease12, 5);
  }

  lemma ExampleKey11()
    ensures VersionKey(ExampleRelease11) == "1.1.0"
  {
    assert ExampleRelease11[..5] == "1.1.0";
    VersionKeyBeforeColon(ExampleRelease11, 5);
  }

  /** Of two sections, only the first has the key: it is the one selected. */
  lemma SelectFirstOfTwo(a: string, b: string, version: string)
    requires VersionKey(a) == version && VersionKey(b) != version
    ensures SelectSection([a, b], version) == Ok(a)
  {
    var r := SelectSection([a, b], version);
    assert VersionKey([a, b][0]) == version;
    var j :| IsLastSection([a, b], version, j) && r.value == [a, b][j];
    assert VersionKey([a, b][1]) != version;
  }

  lemma ExampleSelect()
    ensures SelectSection([ExampleRelease12, ExampleRelease11], "1.2.0") == Ok(ExampleRelease12)
  {
    ExampleKey12();
    ExampleKey11();
    SelectFirstOfTwo(ExampleRelease12, ExampleRelease11, "1.2.0");
  }

  lemma ExampleStrip()
    ensures Strip(ExampleRelease12) == ExampleRelease12
  {
    assert ExampleRelease12[0] == '1';
    assert ExampleRelease12[|ExampleRelease12| - 1] == '.';
    StripTrimmed(ExampleRelease12);
  }

  /** The example's notes text up to the selected section, in two-piece steps. */
  lemma ExampleNotesPrefix()
    ensures "    " + "MyApp NEWS" + "\n\n    " + Marker == "    MyApp NEWS\n\n    ## CHANGES WITH "
  {
    assert "    " + "MyApp NEWS" == "    MyApp NEWS";
    assert "    MyApp NEWS" + "\n\n    " == "    MyApp NEWS\n\n    ";
  }

  lemma ExampleNotesText()
    ensures Relnotes("MyApp NEWS", ExampleRelease12) ==
      "    MyApp NEWS\n\n    ## CHANGES WITH 1.2.0: 2024-01-01\n- Fixed bug X."
  {
    ExampleNotesPrefix();
  }

  lemma ExampleArgs()
    ensures ReleaseArgs("MyApp", "org/myapp", "v1.2.0", "1.2.0") ==
      ["gh", "release", "--repo", "org/myapp", "create", "--verify-tag",
       "--title", "MyApp-1.2.0", "--notes-file", "-", "v1.2.0"]
  {
    assert "MyApp" + "-" + "1.2.0" == "MyApp-1.2.0";
  }

  /** Publishing 1.2.0 from the example picks the first section, and hands `gh`
      the title "MyApp-1.2.0" with the header and that section as notes. */
  lemma ExamplePublish()
    ensures Publish(ExampleNews, "MyApp", "org/myapp", "v1.2.0", "1.2.0") ==
      Ok(Release(
        ["gh", "release", "--repo", "org/myapp", "create", "--verify-tag",
         "--title", "MyApp-1.2.0", "--notes-file", "-", "v1.2.0"],
        "    MyApp NEWS\n\n    ## CHANGES WITH 1.2.0: 2024-01-01\n- Fixed bug X."))
  {
    var sections := Split(ExampleNews, Delimiter);
    ExampleSplit();
    ExampleHeader();
    assert sections[0] == ExamplePreamble;
    assert sections[1..] == [ExampleRelease12, ExampleRelease11];
    ExampleSelect();
    ExampleStrip();
    ExampleNotesText();
    ExampleArgs();
    assert Publish(ExampleNews, "MyApp", "org/myapp", "v1.2.0", "1.2.0") ==
      Ok(Release(ReleaseArgs("MyApp", "org/myapp", "v1.2.0", "1.2.0"), Relnotes("MyApp NEWS", ExampleRelease12)));
  }

  /** A section with no colon is keyed by itself minus its last character. */
  lemma ExampleKeyWithoutColon()
    ensures VersionKey("1.3.0\n") == "1.3.0"
    ensures VersionKey("1.3.0") == "1.3."
    ensures VersionKey("") == ""
  {
  }
}
