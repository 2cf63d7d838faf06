/** Editing one root entry of the sketch project file line by line: update it where it stands,
    append it, or remove it. The YAML library is a pair of functions: how a value is written,
    and what the root map of a text is. */
module YamlEntry {
  import opened Wrappers
  import opened Strings
  import opened Lists

  type Lines = seq<string>

  predicate IsEntry(line: string, key: string) {
    key + ": " <= line
  }

  /** The first line of the key, or the number of lines. */
  function FirstEntry(lines: Lines, key: string): (i: nat)
    ensures i <= |lines|
    ensures i < |lines| ==> IsEntry(lines[i], key)
    ensures forall j :: 0 <= j < i ==> !IsEntry(lines[j], key)
  {
    if lines == [] then 0
    else if IsEntry(lines[0], key) then 0
    else
      var i := FirstEntry(lines[1..], key);
      assert forall j :: 0 < j < i + 1 ==> lines[j] == lines[1..][j - 1];
      i + 1
  }

  /** The edit, as a function of the lines. */
  function Edited(lines: Lines, key: string, newValue: string, updatedLine: string): Lines {
    var i, n := FirstEntry(lines, key), |lines|;
    if i < n && newValue == "" then lines[..i] + lines[i + 1..]
    else if i < n then lines[i := updatedLine]
    else if newValue == "" then lines
    else if n > 0 && lines[n - 1] == "" then lines[n - 1 := updatedLine]
    else lines + [updatedLine]
  }

  /** ReadFileAsLines, without the empty line after the final newline. */
  function ReadLines(content: string): Lines {
    var lines := Split(content, '\n');
    var last := |lines| - 1;
    if last > 0 && lines[last] == "" then lines[..last] else lines
  }

  function Content(lines: Lines): string {
    Join(lines, '\n') + "\n"
  }

  /** The two uses of the YAML library: `write` gives the text of a value, trimmed; `root` the
      root map of a text, if it has one. */
  datatype Yaml = Yaml(write: string -> string, root: string -> Option<map<string, string>>)

  /** The written file means what was asked for. */
  predicate Accepted(y: Yaml, content: string, key: string, newValue: string) {
    match y.root(content)
    case None => false
    case Some(m) => if newValue == "" then key !in m else key in m && m[key] == newValue
  }

  /** The text has a root map with this value at the key. */
  ghost predicate HasValue(y: Yaml, content: string, key: string, value: string) {
    y.root(content).Some? && key in y.root(content).value && y.root(content).value[key] == value
  }

  /** Every line with a newline behind it. */
  ghost function Ended(lines: Lines): string {
    if lines == [] then "" else lines[0] + "\n" + Ended(lines[1..])
  }

  lemma {:induction false} EndedIs(lines: Lines)
    ensures Content(lines) == if lines == [] then "\n" else Ended(lines)
  {
    if |lines| > 1 {
      EndedIs(lines[1..]);
      assert Content(lines) == lines[0] + "\n" + Content(lines[1..]);
    } else if |lines| == 1 {
      assert lines[1..] == [];
      assert lines[0] + "\n" + "" == lines[0] + "\n";
    }
  }

  function UpdatedLine(y: Yaml, key: string, newValue: string): string {
    key + ": " + y.write(newValue)
  }

  function SourceLines(file: Option<string>): Lines {
    match file case None => [] case Some(content) => ReadLines(content)
  }

  method UpdateOrAddYamlRootEntry(y: Yaml, file: Option<string>, key: string, newValue: string) returns (r: Option<string>)
    ensures var content := Content(Edited(SourceLines(file), key, newValue, UpdatedLine(y, key, newValue)));
      r == if Accepted(y, content, key, newValue) then Some(content) else None
    // a written file has the value at its key, or no such key after a removal; everything else is refused
    ensures r.Some? ==> y.root(r.value).Some? && (if newValue == "" then key !in y.root(r.value).value else HasValue(y, r.value, key, newValue))
    ensures r.None? <==>
      var content := Content(Edited(SourceLines(file), key, newValue, UpdatedLine(y, key, newValue)));
      y.root(content).None? || (if newValue == "" then key in y.root(content).value else !HasValue(y, content, key, newValue))
    // the text is the edited lines, each ended by a newline
    ensures r.Some? ==>
      var lines := Edited(SourceLines(file), key, newValue, key + ": " + y.write(newValue));
      r.value == if lines == [] then "\n" else Ended(lines)
  {
    EndedIs(Edited(SourceLines(file), key, newValue, UpdatedLine(y, key, newValue)));
    var srcYaml := SourceLines(file);
    ghost var lines := srcYaml;
    var updatedLine := key + ": " + y.write(newValue);
    var addMissing := newValue != "";
    var i := 0;
    while i < |srcYaml|
      invariant i <= |lines| && srcYaml == lines && (addMissing <==> newValue != "")
      invariant forall j :: 0 <= j < i ==> !IsEntry(lines[j], key)
    {
      if key + ": " <= srcYaml[i] {
        if newValue == "" {
          srcYaml := srcYaml[..i] + srcYaml[i + 1..];
        } else {
          srcYaml := srcYaml[i := updatedLine];
        }
        addMissing := false;
        break;
      }
      i := i + 1;
    }
    if addMissing {
      var lastLine := |srcYaml| - 1;
      if lastLine >= 0 && srcYaml[lastLine] == "" {
        srcYaml := srcYaml[lastLine := updatedLine];
      } else {
        srcYaml := srcYaml + [updatedLine];
      }
    }
    assert srcYaml == Edited(lines, key, newValue, updatedLine);
    var dstYaml := Content(srcYaml);
    match y.root(dstYaml) {
      case None => return None;
      case Some(dstMap) =>
        if (newValue == "" && key in dstMap) || (newValue != "" && !(key in dstMap && dstMap[key] == newValue)) {
          return None;
        }
    }
    r := Some(dstYaml);
  }

  // ----- what else changes

  predicate HasText(line: string) { line != "" }

  function NonBlank(lines: Lines): Lines {
    Filter(lines, HasText)
  }

  /** The lines that are neither blank nor the first entry of the key. */
  function Others(lines: Lines, key: string): Lines {
    var i := FirstEntry(lines, key);
    if i < |lines| then NonBlank(lines[..i]) + NonBlank(lines[i + 1..]) else NonBlank(lines)
  }

  lemma EntryIsFirst(lines: Lines, key: string, i: nat)
    requires i < |lines| && IsEntry(lines[i], key) && forall j :: 0 <= j < i ==> !IsEntry(lines[j], key)
    ensures FirstEntry(lines, key) == i
  {}

  /** Apart from the first line of the key no line that is not blank changes, moves or goes:
      setting keeps the others around the new entry, removing leaves exactly the others. */
  lemma OthersKept(lines: Lines, key: string, newValue: string, updatedLine: string)
    requires newValue != "" ==> IsEntry(updatedLine, key)
    ensures var after := Edited(lines, key, newValue, updatedLine);
      if newValue == "" then NonBlank(after) == Others(lines, key)
      else Others(after, key) == Others(lines, key) && updatedLine in after && after[FirstEntry(after, key)] == updatedLine
  {
    var i, n := FirstEntry(lines, key), |lines|;
    if newValue == "" {
      if i < n { FilterConcat(lines[..i], lines[i + 1..], HasText); }
    } else if i < n {
      var after := lines[i := updatedLine];
      EntryIsFirst(after, key, i);
      assert after[..i] == lines[..i] && after[i + 1..] == lines[i + 1..];
    } else {
      OthersOfAppended(lines, key, updatedLine);
    }
  }

  lemma OthersOfAppended(lines: Lines, key: string, updatedLine: string)
    requires FirstEntry(lines, key) == |lines| && IsEntry(updatedLine, key)
    ensures var after := Edited(lines, key, "x", updatedLine);
      Others(after, key) == NonBlank(lines) && updatedLine in after && after[FirstEntry(after, key)] == updatedLine
  {
    var n := |lines|;
    var kept := if n > 0 && lines[n - 1] == "" then lines[..n - 1] else lines;
    var after := Edited(lines, key, "x", updatedLine);
    assert after == kept + [updatedLine];
    EntryIsFirst(after, key, |kept|);
    assert after[..|kept|] == kept && after[|kept| + 1..] == [];
    if |kept| < n {
      assert lines == kept + [""];
      FilterConcat(kept, [""], HasText);
      assert [""][..0] == [];
    }
  }

  /** A line is an entry of the key if the key, a colon and a space stand at its beginning. */
  lemma IsEntryIff(line: string, key: string)
    ensures IsEntry(line, key) <==> exists rest :: line == key + ": " + rest
  {
    if IsEntry(line, key) { assert line == key + ": " + line[|key + ": "|..]; }
  }

  /** Line by line: an entry is replaced or taken out where it stands; a new one comes last, in the
      place of a blank last line if there is one. */
  lemma EditedAre(lines: Lines, key: string, newValue: string, updatedLine: string)
    ensures var i, n, after := FirstEntry(lines, key), |lines|, Edited(lines, key, newValue, updatedLine);
      if i < n then
        if newValue == "" then |after| == n - 1 && forall j :: 0 <= j < n - 1 ==> after[j] == lines[if j < i then j else j + 1]
        else |after| == n && forall j :: 0 <= j < n ==> after[j] == if j == i then updatedLine else lines[j]
      else if newValue == "" then after == lines
      else
        && |after| == (if n > 0 && lines[n - 1] == "" then n else n + 1)
        && after[|after| - 1] == updatedLine && forall j :: 0 <= j < |after| - 1 ==> j < n && after[j] == lines[j]
  {}

  // ----- writing and reading again

  /** What is read: the lines the text is made of, whether or not the last one has its newline. */
  lemma ReadLinesAre(content: string)
    ensures var lines := ReadLines(content);
      && lines != [] && SingleLines(lines)
      && if content != "" && content[|content| - 1] == '\n' then Ended(lines) == content else Join(lines, '\n') == content
  {
    var parts := Split(content, '\n');
    var last := |parts| - 1;
    JoinSplit(content, '\n');
    assert parts == parts[..last] + [parts[last]];
    JoinSnoc(parts[..last], parts[last], '\n');
    if last > 0 && parts[last] == "" {
      EndedIs(parts[..last]);
      assert content == Join(parts[..last], '\n') + "\n";
    } else if content != "" && content[|content| - 1] == '\n' {
      LastPart(content);
    }
  }

  lemma LastPart(content: string)
    requires content != "" && content[|content| - 1] == '\n'
    ensures var parts := Split(content, '\n'); |parts| > 1 && parts[|parts| - 1] == ""
  {
    var n := |content| - 1;
    var before := Split(content[..n], '\n');
    JoinSplit(content[..n], '\n');
    JoinSnoc(before, "", '\n');
    assert content == Join(before + [""], '\n');
    SplitJoin(before + [""], '\n');
  }

  ghost predicate SingleLines(lines: Lines) {
    forall l :: l in lines ==> '\n' !in l
  }

  /** The written text reads back as the same lines. */
  lemma ReadBack(lines: Lines)
    requires lines != [] && SingleLines(lines)
    ensures ReadLines(Content(lines)) == lines
  {
    SplitJoin(lines + [""], '\n');
    JoinEmptyLast(lines);
    assert (lines + [""])[..|lines|] == lines;
  }

  lemma {:induction false} JoinEmptyLast(lines: Lines)
    requires lines != []
    ensures Join(lines + [""], '\n') == Join(lines, '\n') + "\n"
  {
    if |lines| > 1 {
      JoinEmptyLast(lines[1..]);
      assert (lines + [""])[1..] == lines[1..] + [""];
    }
  }

  lemma ReadLinesSingle(content: string)
    ensures SingleLines(ReadLines(content))
  {}

  /** Setting the same single-line value again, on the file just written, changes nothing. */
  lemma SettingTwice(y: Yaml, file: Option<string>, key: string, newValue: string)
    requires newValue != "" && '\n' !in UpdatedLine(y, key, newValue)
    ensures var line := UpdatedLine(y, key, newValue);
      var content := Content(Edited(SourceLines(file), key, newValue, line));
      Content(Edited(SourceLines(Some(content)), key, newValue, line)) == content
  {
    var line := UpdatedLine(y, key, newValue);
    var lines := SourceLines(file);
    var after := Edited(lines, key, newValue, line);
    if file.Some? { ReadLinesSingle(file.value); }
    assert IsEntry(line, key) by { assert line[..|key + ": "|] == key + ": "; }
    OthersKept(lines, key, newValue, line);
    EditedSingle(lines, key, newValue, line);
    ReadBack(after);
    assert after[FirstEntry(after, key) := line] == after;
  }

  lemma EditedSingle(lines: Lines, key: string, newValue: string, line: string)
    requires SingleLines(lines) && '\n' !in line
    ensures SingleLines(Edited(lines, key, newValue, line))
  {}

  /** Removing an entry that was just added to a file without it gives the lines back. */
  lemma RemoveUndoesAdd(lines: Lines, key: string, newValue: string, line: string)
    requires FirstEntry(lines, key) == |lines| && newValue != "" && IsEntry(line, key)
    ensures NonBlank(Edited(Edited(lines, key, newValue, line), key, "", "")) == NonBlank(lines)
  {
    OthersKept(lines, key, newValue, line);
    OthersKept(Edited(lines, key, newValue, line), key, "", "");
  }
}
