/** The inner `get_prometheus_pod_name` of `set_up_prometheus_port_forwarding`:
    the listing printed by `kubectl get pods --namespace=monitoring` is scanned,
    header row excluded, for the first pod whose name splits on `-` into
    `prometheus`, `deployment`, ...; that pod must report `1/1` in its second
    column. Python's exceptions become `Raised` outcomes. */
module PodScan {
  import opened Python
  import opened PyStr

  /** What one row of the listing makes the loop body do. */
  datatype Verdict = Skip | Select(name: string) | Fail(error: Error)

  /** The name test of the loop, `pod_name_array[0] == 'prometheus'` and
      `pod_name_array[1] == 'deployment'`, once it is known to be defined. */
  predicate NameMatches(name: string) {
    var parts := Split(name, '-');
    |parts| >= 2 && parts[0] == "prometheus" && parts[1] == "deployment"
  }

  /** One pass of the loop body on the row `pod`. A selected name is the row's
      first column, passes the name test, and the row reports `1/1`; the only
      exceptions are IndexError and the readiness assertion. */
  function Classify(pod: string): (v: Verdict)
    ensures v.Select? ==>
              |Fields(pod)| >= 2 && Fields(pod)[0] == v.name && NameMatches(v.name) && Fields(pod)[1] == "1/1"
    ensures v.Fail? ==> v.error == IndexError || v.error == AssertionError(PodReady)
  {
    var columns := Fields(pod);
    if columns == [] then Fail(IndexError)
    else
      var podName := columns[0];
      var nameParts := Split(podName, '-');
      if podName[0] != 'p' || nameParts[0] != "prometheus" then Skip
      else if |nameParts| < 2 then Fail(IndexError)
      else if nameParts[1] != "deployment" then Skip
      else if |columns| < 2 then Fail(IndexError)
      else if columns[1] != "1/1" then Fail(AssertionError(PodReady))
      else Select(podName)
  }

  /** The loop over the rows: the first row that does not skip decides. A name
      it returns passes the name test, and it raises nothing but IndexError and
      the readiness assertion. */
  function Scan(pods: seq<string>): (r: Outcome<Option<string>>)
    ensures r.Ok? && r.value.Some? ==> NameMatches(r.value.value)
    ensures r.Raised? ==> r.error == IndexError || r.error == AssertionError(PodReady)
    decreases |pods|
  {
    if pods == [] then Ok(None)
    else
      match Classify(pods[0])
      case Skip => Scan(pods[1..])
      case Select(name) => Ok(Some(name))
      case Fail(e) => Raised(e)
  }

  /** The whole function on the text `kubectl get pods` printed. The
      empty-list assertion fails exactly for a listing of one line (no newline),
      and a name it returns passes the name test. */
  function PrometheusPod(listing: string): (r: Outcome<Option<string>>)
    ensures r == Raised(AssertionError(PodListNonEmpty)) <==> '\n' !in listing
    ensures r.Ok? && r.value.Some? ==> NameMatches(r.value.value)
  {
    SplitSingleIff(listing, '\n');
    var podList := Split(listing, '\n')[1..];
    if |podList| == 0 then Raised(AssertionError(PodListNonEmpty)) else Scan(podList)
  }

  /** `get_prometheus_pod_name` without its subprocess calls and prints:
      `listing` is the output of `kubectl get pods`. */
  method GetPrometheusPodName(listing: string) returns (r: Outcome<Option<string>>)
    ensures r == PrometheusPod(listing)
  {
    var podList := Split(listing, '\n')[1..];
    if |podList| == 0 {
      return Raised(AssertionError(PodListNonEmpty));
    }
    var prometheusPodName: Option<string> := None;
    var i := 0;
    while i < |podList|
      invariant 0 <= i <= |podList|
      invariant Scan(podList[i..]) == Scan(podList)
      invariant prometheusPodName == None
    {
      var pod := podList[i];
      assert podList[i..][1..] == podList[i + 1..];
      var columns := Fields(pod);
      if |columns| == 0 {
        return Raised(IndexError);
      }
      var podName := columns[0];
      var podNameArray := Split(podName, '-');
      if podName[0] == 'p' && podNameArray[0] == "prometheus" {
        if |podNameArray| < 2 {
          return Raised(IndexError);
        }
        if podNameArray[1] == "deployment" {
          if |columns| < 2 {
            return Raised(IndexError);
          }
          var podStatus := columns[1];
          if podStatus != "1/1" {
            return Raised(AssertionError(PodReady));
          }
          prometheusPodName := Some(podName);
          break;
        }
      }
      i := i + 1;
    }
    r := Ok(prometheusPodName);
  }

  // ------------------------------------------------------------ properties

  /** The first `-`-piece of a string is a prefix of it. */
  lemma {:induction false} FirstPieceIsPrefix(s: string, sep: char)
    ensures IsPrefix(Split(s, sep)[0], s)
    decreases |s|
  {
    if s != [] && s[0] != sep {
      FirstPieceIsPrefix(s[1..], sep);
    }
  }

  /** The text every matching name starts with. */
  const PodNamePrefix: string := "prometheus-deployment"

  lemma PodNamePrefixParts()
    ensures PodNamePrefix == "prometheus" + ['-'] + "deployment"
    ensures '-' !in "prometheus" && '-' !in "deployment"
  {
  }

  /** A name passes the test exactly when it starts with
      `prometheus-deployment` and ends there or continues with `-`. */
  lemma NameMatchesIff(name: string)
    ensures NameMatches(name) <==>
            IsPrefix(PodNamePrefix, name) && (|name| == |PodNamePrefix| || name[|PodNamePrefix|] == '-')
  {
    PodNamePrefixParts();
    if NameMatches(name) {
      NameMatchesHasPrefix(name);
    }
    if IsPrefix(PodNamePrefix, name) && (|name| == |PodNamePrefix| || name[|PodNamePrefix|] == '-') {
      PrefixedNameMatches(name);
    }
  }

  lemma NameMatchesHasPrefix(name: string)
    requires NameMatches(name)
    ensures IsPrefix(PodNamePrefix, name) && (|name| == |PodNamePrefix| || name[|PodNamePrefix|] == '-')
  {
    PodNamePrefixParts();
    var parts := Split(name, '-');
    JoinSplit(name, '-');
    assert name == parts[0] + ['-'] + Join(parts[1..], '-');
    var tail := if |parts| == 2 then "" else ['-'] + Join(parts[2..], '-');
    assert Join(parts[1..], '-') == parts[1] + tail by {
      if |parts| > 2 {
        assert parts[1..][1..] == parts[2..];
      }
    }
    assert name == PodNamePrefix + tail;
  }

  lemma PrefixedNameMatches(name: string)
    requires IsPrefix(PodNamePrefix, name) && (|name| == |PodNamePrefix| || name[|PodNamePrefix|] == '-')
    ensures NameMatches(name)
  {
    PodNamePrefixParts();
    var rest := name[|PodNamePrefix|..];
    assert name == name[..|PodNamePrefix|] + rest;
    FirstTwoPieces("prometheus", "deployment", rest, '-');
  }

  /** Splitting `a + sep + b + rest`, with `rest` empty or starting with `sep`,
      gives `a` and `b` as its first two pieces. */
  lemma FirstTwoPieces(a: string, b: string, rest: string, sep: char)
    requires sep !in a && sep !in b
    requires rest == [] || rest[0] == sep
    ensures var parts := Split(a + [sep] + b + rest, sep);
            |parts| >= 2 && parts[0] == a && parts[1] == b
  {
    assert a + [sep] + b + rest == a + [sep] + (b + rest);
    SplitAround(a, b + rest, sep);
    SplitNoSep(a, sep);
    if rest == [] {
      assert b + rest == b;
      SplitNoSep(b, sep);
    } else {
      assert b + rest == b + [sep] + rest[1..];
      SplitAround(b, rest[1..], sep);
      SplitNoSep(b, sep);
    }
  }

  /** A row is selected exactly when its first column passes the name test and
      its second column is `1/1`; the selected name is that first column. The
      `pod_name[0] == 'p'` test never decides anything on its own. */
  lemma ClassifySelectIff(pod: string, name: string)
    ensures Classify(pod) == Select(name) <==>
            |Fields(pod)| >= 2 && Fields(pod)[0] == name && NameMatches(name) && Fields(pod)[1] == "1/1"
  {
    var columns := Fields(pod);
    if columns != [] {
      FirstPieceIsPrefix(columns[0], '-');
    }
  }

  /** A row whose name passes the test but whose second column is not `1/1`
      raises the readiness assertion, and only such a row does. */
  lemma ClassifyNotReadyIff(pod: string)
    ensures Classify(pod) == Fail(AssertionError(PodReady)) <==>
            |Fields(pod)| >= 2 && NameMatches(Fields(pod)[0]) && Fields(pod)[1] != "1/1"
  {
    var columns := Fields(pod);
    if columns != [] {
      FirstPieceIsPrefix(columns[0], '-');
    }
  }

  /** A blank row (empty or whitespace only) raises IndexError. */
  lemma BlankRowRaises(pod: string)
    requires IsBlank(pod)
    ensures Classify(pod) == Fail(IndexError)
  {
    FieldsEmptyIff(pod);
  }

  /** A row whose name has no `-` is skipped, unless the name is exactly
      `prometheus`: then `pod_name_array[1]` raises IndexError. */
  lemma NameWithoutHyphen(pod: string)
    requires Fields(pod) != [] && '-' !in Fields(pod)[0]
    ensures Classify(pod) == if Fields(pod)[0] == "prometheus" then Fail(IndexError) else Skip
  {
    SplitNoSep(Fields(pod)[0], '-');
  }

  /** Nothing after the deciding row is examined: the scan of two stretches of
      rows is the scan of the first unless every row of it skipped. */
  lemma {:induction false} ScanAppend(a: seq<string>, b: seq<string>)
    ensures Scan(a + b) == if Scan(a) == Ok(None) then Scan(b) else Scan(a)
    decreases |a|
  {
    if a == [] {
      assert a + b == b;
    } else {
      assert (a + b)[0] == a[0];
      assert (a + b)[1..] == a[1..] + b;
      ScanAppend(a[1..], b);
    }
  }

  /** The scan returns `None` exactly when every row is skipped. */
  lemma {:induction false} ScanNoneIff(pods: seq<string>)
    ensures Scan(pods) == Ok(None) <==> forall j :: 0 <= j < |pods| ==> Classify(pods[j]) == Skip
    decreases |pods|
  {
    if pods != [] {
      ScanNoneIff(pods[1..]);
      assert forall j :: 1 <= j < |pods| ==> pods[1..][j - 1] == pods[j];
    }
  }

  /** The scan returns the name of a row exactly when that row is selected and
      every row before it is skipped. */
  lemma {:induction false} ScanFoundIff(pods: seq<string>, name: string)
    ensures Scan(pods) == Ok(Some(name)) <==>
            exists i :: 0 <= i < |pods| && Classify(pods[i]) == Select(name)
                        && forall j :: 0 <= j < i ==> Classify(pods[j]) == Skip
    decreases |pods|
  {
    if pods != [] {
      ScanFoundIff(pods[1..], name);
      var rest := pods[1..];
      assert forall j :: 1 <= j < |pods| ==> rest[j - 1] == pods[j];
      if Classify(pods[0]) == Skip {
        if Scan(rest) == Ok(Some(name)) {
          var i :| 0 <= i < |rest| && Classify(rest[i]) == Select(name)
                   && forall j :: 0 <= j < i ==> Classify(rest[j]) == Skip;
          assert Classify(pods[i + 1]) == Select(name);
          assert forall j :: 0 <= j < i + 1 ==> Classify(pods[j]) == Skip by {
            forall j | 0 <= j < i + 1 ensures Classify(pods[j]) == Skip {
              if j > 0 { assert Classify(rest[j - 1]) == Skip; }
            }
          }
        }
      }
    }
  }

  /** The header row is never looked at: the outcome is the scan of the rows
      after it, whatever the header says. */
  lemma HeaderIgnored(header: string, body: string)
    requires '\n' !in header
    ensures PrometheusPod(header + "\n" + body) == Scan(Split(body, '\n'))
  {
    SplitAround(header, body, '\n');
    SplitNoSep(header, '\n');
    assert header + "\n" + body == header + ['\n'] + body;
    assert ([header] + Split(body, '\n'))[1..] == Split(body, '\n');
  }

  /** `kubectl` ends its listing with a newline, so its last row is empty; a
      listing that ends with a newline therefore never yields `None`: when no
      row decides earlier, the empty row raises IndexError. */
  lemma TrailingNewlineNeverNone(listing: string)
    requires |listing| > 0 && listing[|listing| - 1] == '\n'
    ensures PrometheusPod(listing) != Ok(None)
  {
    var text := listing[..|listing| - 1];
    assert listing == text + ['\n'] + "";
    SplitAround(text, "", '\n');
    var rows := Split(text, '\n')[1..];
    assert Split(listing, '\n')[1..] == rows + [""];
    ScanAppend(rows, [""]);
    assert Scan([""]) == Raised(IndexError);
  }

  /** A ready row `<name> 1/1` for a matching pod name selects that name. */
  lemma ReadyRowSelected(name: string)
    requires name != [] && NoSpace(name) && NameMatches(name)
    ensures Classify(name + " 1/1") == Select(name)
  {
    FieldsOfWord(name, " 1/1");
    assert " 1/1" == " " + "1/1";
    FieldsAfterBlank(" ", "1/1");
    assert "1/1" == "1/1" + "";
    FieldsOfWord("1/1", "");
    ClassifySelectIff(name + " 1/1", name);
  }

  /** A listing of a header and a single ready Prometheus pod, in the shape
      `kubectl` prints it (trailing newline included), yields that pod's name. */
  lemma SingleReadyPodFound(header: string, name: string)
    requires '\n' !in header
    requires name != [] && NoSpace(name) && NameMatches(name)
    ensures PrometheusPod(header + "\n" + name + " 1/1\n") == Ok(Some(name))
  {
    var row := name + " 1/1";
    ReadyRowSelected(name);
    assert header + "\n" + name + " 1/1\n" == header + "\n" + (row + ['\n'] + "");
    HeaderIgnored(header, row + ['\n'] + "");
    assert '\n' !in row by {
      assert forall c :: c in row ==> c in name || c in " 1/1";
    }
    SplitAround(row, "", '\n');
    SplitNoSep(row, '\n');
    assert Split(row + ['\n'] + "", '\n') == [row, ""];
  }
}
