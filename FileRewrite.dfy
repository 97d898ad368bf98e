/** `make_new_file_with_replacement` of the Prometheus setup helper: every line
    of a template file goes through every placeholder of a dictionary, in the
    dictionary's order, with `str.replace`; the rewritten lines are written to a
    sibling file whose name is the old one with `updated-` in front. */
module FileRewrite {
  import opened PyStr

  /** A Python dict from placeholder to replacement text, in insertion order
      (the order in which `for key in dict` visits it). */
  type Replacements = seq<(string, string)>

  // ------------------------------------------------------------ file lines

  /** The lines that iterating over a text file yields: each keeps its
      newline, the last one may lack it, and an empty file has none. Together
      they are the file's text; each is non-empty, holds a newline only as its
      last character, and every line but the last ends with one. */
  function Lines(text: string): (lines: seq<string>)
    ensures Concat(lines) == text
    ensures forall i :: 0 <= i < |lines| ==> IsLine(lines[i])
    ensures forall i :: 0 <= i < |lines| - 1 ==> EndsWithNewline(lines[i])
  {
    var parts := Split(text, '\n');
    ConcatWithNewlines(parts);
    JoinSplit(text, '\n');
    WithNewlinesShape(parts);
    WithNewlines(parts)
  }

  function WithNewlines(parts: seq<string>): seq<string>
    requires |parts| >= 1
    decreases |parts|
  {
    if |parts| == 1 then (if parts[0] == "" then [] else [parts[0]])
    else [parts[0] + "\n"] + WithNewlines(parts[1..])
  }

  /** `"".join(lines)`, or `+=` over them. */
  function Concat(lines: seq<string>): string
    decreases |lines|
  {
    if lines == [] then "" else lines[0] + Concat(lines[1..])
  }

  /** One line: a non-empty piece whose only newline, if any, is its last
      character. */
  predicate IsLine(l: string) {
    l != [] && '\n' !in l[..|l| - 1]
  }

  predicate EndsWithNewline(l: string) {
    l != [] && l[|l| - 1] == '\n'
  }

  lemma {:induction false} ConcatWithNewlines(parts: seq<string>)
    requires |parts| >= 1
    ensures Concat(WithNewlines(parts)) == Join(parts, '\n')
    decreases |parts|
  {
    if |parts| > 1 {
      ConcatWithNewlines(parts[1..]);
    }
  }

  lemma {:induction false} WithNewlinesShape(parts: seq<string>)
    requires |parts| >= 1
    requires forall i :: 0 <= i < |parts| ==> '\n' !in parts[i]
    ensures forall i :: 0 <= i < |WithNewlines(parts)| ==> IsLine(WithNewlines(parts)[i])
    ensures forall i :: 0 <= i < |WithNewlines(parts)| - 1 ==> EndsWithNewline(WithNewlines(parts)[i])
    decreases |parts|
  {
    if |parts| > 1 {
      WithNewlinesShape(parts[1..]);
      var l := parts[0] + "\n";
      assert l[..|l| - 1] == parts[0];
    }
  }

  // --------------------------------------------------------- the rewrite

  /** The inner loop: one line through every placeholder, in dictionary order.
      A line holding none of the placeholders is copied unchanged. */
  function RewriteLine(line: string, reps: Replacements): (r: string)
    ensures (forall i :: 0 <= i < |reps| ==> !Contains(line, reps[i].0)) ==> r == line
    decreases |reps|
  {
    if reps == [] then line
    else
      assert forall i :: 0 <= i < |reps[1..]| ==> reps[1..][i] == reps[i + 1];
      RewriteLine(Replace(line, reps[0].0, reps[0].1), reps[1..])
  }

  /** The outer loop: the rewritten lines, concatenated in order. A file none of
      whose lines holds a placeholder is copied unchanged. */
  function RewriteFile(lines: seq<string>, reps: Replacements): (r: string)
    ensures (forall j, i :: 0 <= j < |lines| && 0 <= i < |reps| ==> !Contains(lines[j], reps[i].0))
            ==> r == Concat(lines)
    decreases |lines|
  {
    if lines == [] then "" else RewriteLine(lines[0], reps) + RewriteFile(lines[1..], reps)
  }

  /** The output path: the last `/`-separated segment gets `updated-` in front.
      The new path has as many segments as the old one; all but the last are
      the same and the last is `updated-` followed by the old last one. */
  function UpdatedPath(filePath: string): (path: string)
    ensures var p, q := Split(filePath, '/'), Split(path, '/');
            |q| == |p| && q[..|q| - 1] == p[..|p| - 1] && q[|q| - 1] == "updated-" + p[|p| - 1]
  {
    var parts := Split(filePath, '/');
    var updated := parts[|parts| - 1 := "updated-" + parts[|parts| - 1]];
    assert '/' !in "updated-" + parts[|parts| - 1] by {
      assert forall c :: c in "updated-" + parts[|parts| - 1] ==> c in "updated-" || c in parts[|parts| - 1];
    }
    SplitJoin(updated, '/');
    Join(updated, '/')
  }

  /** `make_new_file_with_replacement` without its file I/O: `lines` is what the
      loop reads from `file_path`; the results are what it writes and where. */
  method MakeNewFileWithReplacement(lines: seq<string>, reps: Replacements, filePath: string)
    returns (newFileContents: string, newFilePath: string)
    ensures newFileContents == RewriteFile(lines, reps)
    ensures newFilePath == UpdatedPath(filePath)
  {
    newFileContents := "";
    var i := 0;
    while i < |lines|
      invariant 0 <= i <= |lines|
      invariant newFileContents + RewriteFile(lines[i..], reps) == RewriteFile(lines, reps)
    {
      var newLine := lines[i];
      var k := 0;
      while k < |reps|
        invariant 0 <= k <= |reps|
        invariant RewriteLine(newLine, reps[k..]) == RewriteLine(lines[i], reps)
      {
        assert reps[k..][1..] == reps[k + 1..];
        newLine := Replace(newLine, reps[k].0, reps[k].1);
        k := k + 1;
      }
      assert lines[i..][1..] == lines[i + 1..];
      newFileContents := newFileContents + newLine;
      i := i + 1;
    }
    var oldPathArray := Split(filePath, '/');
    oldPathArray := oldPathArray[|oldPathArray| - 1 := "updated-" + oldPathArray[|oldPathArray| - 1]];
    newFilePath := Join(oldPathArray, '/');
  }

  // ------------------------------------------------- properties of the rewrite

  /** Lines are rewritten independently: the rewrite of a file split anywhere
      is the two rewrites side by side. */
  lemma {:induction false} RewriteFileAppend(a: seq<string>, b: seq<string>, reps: Replacements)
    ensures RewriteFile(a + b, reps) == RewriteFile(a, reps) + RewriteFile(b, reps)
    decreases |a|
  {
    if a == [] {
      assert a + b == b;
    } else {
      assert (a + b)[1..] == a[1..] + b;
      RewriteFileAppend(a[1..], b, reps);
    }
  }

  /** With an empty dictionary the new file has exactly the old file's text. */
  lemma EmptyDictCopiesFile(text: string)
    ensures RewriteFile(Lines(text), []) == text
  {
  }

  /** The placeholders are applied one after another in dictionary order: the
      first entries' rewrite is finished before the later entries see the line. */
  lemma {:induction false} RewriteLineInOrder(line: string, first: Replacements, later: Replacements)
    ensures RewriteLine(line, first + later) == RewriteLine(RewriteLine(line, first), later)
    decreases |first|
  {
    if first == [] {
      assert first + later == later;
    } else {
      assert (first + later)[0] == first[0];
      assert (first + later)[1..] == first[1..] + later;
      RewriteLineInOrder(Replace(line, first[0].0, first[0].1), first[1..], later);
    }
  }

  /** No replacement value can take part in a new occurrence of any
      placeholder: every placeholder and every value is non-empty, and no value
      holds the first or the last character of a placeholder or occurs inside
      one. */
  predicate ForeignValues(reps: Replacements) {
    forall i, j :: 0 <= i < |reps| && 0 <= j < |reps| ==> CannotForm(reps[i].1, reps[j].0)
  }

  lemma {:induction false} RewriteKeepsAbsent(x: string, reps: Replacements, k: string)
    requires |k| > 0 && !Contains(x, k)
    requires forall i :: 0 <= i < |reps| ==> CannotForm(reps[i].1, k)
    ensures !Contains(RewriteLine(x, reps), k)
    decreases |reps|
  {
    if reps != [] {
      var y := Replace(x, reps[0].0, reps[0].1);
      if Contains(y, k) {
        ContainsAfterReplace(x, k, reps[0].0, reps[0].1);
      }
      assert forall i :: 0 <= i < |reps[1..]| ==> reps[1..][i] == reps[i + 1];
      RewriteKeepsAbsent(y, reps[1..], k);
    }
  }

  /** When no value can take part in an occurrence of any placeholder, no
      placeholder is left in a rewritten line. */
  lemma {:induction false} NoPlaceholderRemains(line: string, reps: Replacements)
    requires ForeignValues(reps)
    ensures forall i :: 0 <= i < |reps| ==> !Contains(RewriteLine(line, reps), reps[i].0)
    decreases |reps|
  {
    if reps != [] {
      var y := Replace(line, reps[0].0, reps[0].1);
      var rest := reps[1..];
      assert forall i :: 0 <= i < |rest| ==> rest[i] == reps[i + 1];
      NoPlaceholderRemains(y, rest);
      ReplaceRemovesKey(line, reps[0].0, reps[0].1);
      RewriteKeepsAbsent(y, rest, reps[0].0);
      forall i | 0 <= i < |reps| ensures !Contains(RewriteLine(line, reps), reps[i].0) {
        if i > 0 { assert reps[i] == rest[i - 1]; }
      }
    }
  }

  /** Values that merely avoid containing a placeholder are not enough: removing
      a later placeholder can glue an earlier one together. */
  lemma PlaceholderCanReappear()
    ensures !Contains("x", "ab") && !Contains("x", "c") && !Contains("", "ab") && !Contains("", "c")
    ensures RewriteLine("acb", [("ab", "x"), ("c", "")]) == "ab"
  {
    var reps: Replacements := [("ab", "x"), ("c", "")];
    assert !Contains("acb", "ab") by {
      assert "acb"[..2] != "ab" by { assert "acb"[..2][1] == 'c'; }
      assert "acb"[1..] == "cb";
      assert "cb"[..2] != "ab" by { assert "cb"[..2][0] == 'c'; }
    }
    assert "acb"[..1] != "c" by { assert "acb"[..1][0] == 'a'; }
    assert "acb"[1..] == "cb" && "cb"[..1] == "c" && "cb"[1..] == "b";
    assert "b"[..1] != "c" by { assert "b"[..1][0] == 'b'; }
    assert "b"[1..] == "";
    assert Replace("acb", "c", "") == "ab";
    assert reps[1..][1..] == [];
  }

  // ------------------------------------------- the config-map dictionary

  const WorkspaceIdKey: string := "<my-workspace-id>"
  const RegionKey: string := "<my-workspace-region>"

  /** The dictionary `update_config_map_AMP_workspace` builds: the workspace-id
      placeholder first, then the region placeholder. Each placeholder is
      delimited by `<` and `>`. */
  function ConfigMapReplacements(workspaceId: string, region: string): (reps: Replacements)
    ensures |reps| == 2
    ensures forall i :: 0 <= i < |reps| ==>
              |reps[i].0| > 2 && reps[i].0[0] == '<' && reps[i].0[|reps[i].0| - 1] == '>'
  {
    [(WorkspaceIdKey, workspaceId), (RegionKey, region)]
  }

  /** `update_config_map_AMP_workspace` without its file I/O: the config map's
      lines rewritten with the workspace id and region, and the new path. */
  method UpdateConfigMapAmpWorkspace(workspaceId: string, region: string, lines: seq<string>, configMapFilePath: string)
    returns (newFileContents: string, newFilePath: string)
    ensures newFileContents == RewriteFile(lines, ConfigMapReplacements(workspaceId, region))
    ensures newFilePath == UpdatedPath(configMapFilePath)
  {
    newFileContents, newFilePath :=
      MakeNewFileWithReplacement(lines, ConfigMapReplacements(workspaceId, region), configMapFilePath);
  }

  /** A value with no angle bracket and at least one decimal digit, as an AWS
      region name (`us-west-2`) or a workspace id (`ws-` and a UUID) is. */
  predicate PlainWithDigit(v: string) {
    '<' !in v && '>' !in v && exists i :: 0 <= i < |v| && IsDigit(v[i])
  }

  lemma DigitNotInPlaceholders(c: char)
    requires IsDigit(c)
    ensures c !in WorkspaceIdKey && c !in RegionKey
  {
  }

  /** Such values can take part in no occurrence of either placeholder. */
  lemma ConfigMapValuesForeign(workspaceId: string, region: string)
    requires PlainWithDigit(workspaceId) && PlainWithDigit(region)
    ensures ForeignValues(ConfigMapReplacements(workspaceId, region))
  {
    forall v | v == workspaceId || v == region
      ensures CannotForm(v, WorkspaceIdKey) && CannotForm(v, RegionKey)
    {
      var d :| 0 <= d < |v| && IsDigit(v[d]);
      DigitNotInPlaceholders(v[d]);
      ForeignCharNotInside(WorkspaceIdKey, v, v[d]);
      ForeignCharNotInside(RegionKey, v, v[d]);
    }
  }

  /** The config-map rewrite leaves neither placeholder in any line, whenever
      the workspace id and the region hold no angle bracket and some digit. */
  lemma ConfigMapLeavesNoPlaceholder(line: string, workspaceId: string, region: string)
    requires PlainWithDigit(workspaceId) && PlainWithDigit(region)
    ensures !Contains(RewriteLine(line, ConfigMapReplacements(workspaceId, region)), WorkspaceIdKey)
    ensures !Contains(RewriteLine(line, ConfigMapReplacements(workspaceId, region)), RegionKey)
  {
    var reps := ConfigMapReplacements(workspaceId, region);
    ConfigMapValuesForeign(workspaceId, region);
    NoPlaceholderRemains(line, reps);
    assert reps[0].0 == WorkspaceIdKey && reps[1].0 == RegionKey;
  }

  /** A typical workspace id and region meet that condition. */
  lemma TypicalConfigMapValues()
    ensures ForeignValues(ConfigMapReplacements("ws-1a2b", "us-west-2"))
  {
    assert IsDigit("ws-1a2b"[3]);
    assert IsDigit("us-west-2"[8]);
    ConfigMapValuesForeign("ws-1a2b", "us-west-2");
  }

  // ---------------------------------------------------- the output path

  /** The new path is the old one with `updated-` inserted after its last `/`
      (or in front, when it has none); so it is 8 characters longer and never
      names the file that was read. */
  lemma UpdatedPathInsertsPrefix(filePath: string)
    ensures var p := Split(filePath, '/');
            var last := p[|p| - 1];
            |last| <= |filePath|
            && filePath == filePath[..|filePath| - |last|] + last
            && UpdatedPath(filePath) == filePath[..|filePath| - |last|] + "updated-" + last
    ensures |UpdatedPath(filePath)| == |filePath| + 8
  {
    var p := Split(filePath, '/');
    var n := |p|;
    var last := p[n - 1];
    var updated := p[n - 1 := "updated-" + last];
    JoinSplit(filePath, '/');
    if n == 1 {
      assert filePath == last;
    } else {
      assert p == p[..n - 1] + [last];
      assert updated == p[..n - 1] + ["updated-" + last];
      JoinSnoc(p[..n - 1], last, '/');
      JoinSnoc(p[..n - 1], "updated-" + last, '/');
      var dir := Join(p[..n - 1], '/') + ['/'];
      assert filePath == dir + last;
      assert filePath[..|filePath| - |last|] == dir;
    }
  }
}
