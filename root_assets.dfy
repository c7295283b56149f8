/**
 The root-relative asset validator: every HTML text is scanned with the
 attribute pattern; protocol-relative values and the bare root are dropped;
 each remaining value is tested for existence once, with its leading
 slashes stripped, against the site root; the values that do not exist make
 the run fail and are listed in sorted order.

 The file system is a parameter: `pathExists(p)` answers whether `p`,
 joined to the root directory, exists (as a file or a directory).
 */
module RootAssets {
  import opened AssetPattern
  import opened TextOrder
  import opened Numerals

  // ---------------------------------------------------------------------
  // Strings
  // ---------------------------------------------------------------------

  predicate StartsWith(s: string, prefix: string) {
    |prefix| <= |s| && s[..|prefix|] == prefix
  }

  /** `s.lstrip("/")`: `s` without its maximal run of leading slashes. */
  function LStripSlash(s: string): (r: string)
    ensures |r| <= |s| && r == s[|s| - |r|..]
    ensures r == [] || r[0] != '/'
    ensures forall i :: 0 <= i < |s| - |r| ==> s[i] == '/'
  {
    if s != [] && s[0] == '/' then LStripSlash(s[1..]) else s
  }

  // ---------------------------------------------------------------------
  // What the scan produces and what the loop keeps
  // ---------------------------------------------------------------------

  /** The filter applied to every extracted value: protocol-relative values
      and the bare root are not asset paths. */
  predicate Skipped(m: string) {
    StartsWith(m, "//") || m == "/"
  }

  /** Every value the scan extracts, file after file, each file's values in
      text order. */
  function Candidates(texts: seq<string>): seq<string> {
    if texts == [] then [] else Candidates(texts[..|texts| - 1]) + FindAll(texts[|texts| - 1])
  }

  /** The candidates that pass the filter, in order, repeats included. */
  function Kept(cs: seq<string>): seq<string> {
    if cs == [] then []
    else if Skipped(cs[|cs| - 1]) then Kept(cs[..|cs| - 1])
    else Kept(cs[..|cs| - 1]) + [cs[|cs| - 1]]
  }

  /** The first occurrence of each value, in order. */
  function FirstOccurrences(cs: seq<string>): seq<string> {
    if cs == [] then []
    else if cs[|cs| - 1] in cs[..|cs| - 1] then FirstOccurrences(cs[..|cs| - 1])
    else FirstOccurrences(cs[..|cs| - 1]) + [cs[|cs| - 1]]
  }

  /** One more file appends its values to the candidates. */
  lemma CandidatesStep(texts: seq<string>, i: nat)
    requires i < |texts|
    ensures Candidates(texts[..i + 1]) == Candidates(texts[..i]) + FindAll(texts[i])
  {
    assert texts[..i + 1][..i] == texts[..i];
  }

  /** The `checked` set after the values `cs` have gone through the loop. */
  function CheckedOf(cs: seq<string>): set<string> {
    set v | v in cs && !Skipped(v)
  }

  /** The `missing` set after the values `cs` have gone through the loop. */
  function MissingOf(cs: seq<string>, pathExists: string -> bool): set<string> {
    set v | v in CheckedOf(cs) && !pathExists(LStripSlash(v))
  }

  /** The values handed to the existence test, in the order they are tested. */
  function ProbesOf(cs: seq<string>): seq<string> {
    FirstOccurrences(Kept(cs))
  }

  predicate NoRepeats(s: seq<string>) {
    forall i, j :: 0 <= i < j < |s| ==> s[i] != s[j]
  }

  // ---------------------------------------------------------------------
  // The loop over files and matches
  // ---------------------------------------------------------------------

  /** The loop over the HTML texts; ScanMatches below is its inner loop over
      one text's matches. It returns the `checked` and `missing` sets and, in
      `probes`, the values whose existence it tested, in the order it tested
      them. */
  method Validate(texts: seq<string>, pathExists: string -> bool)
    returns (checked: set<string>, missing: set<string>, probes: seq<string>)
    ensures checked == CheckedOf(Candidates(texts))
    ensures missing == MissingOf(Candidates(texts), pathExists)
    ensures probes == ProbesOf(Candidates(texts))
    ensures missing <= checked
    ensures forall v :: v in missing <==> v in checked && !pathExists(LStripSlash(v))
    ensures NoRepeats(probes) && forall v :: v in probes <==> v in checked
  {
    checked, missing, probes := {}, {}, [];
    for i := 0 to |texts|
      invariant checked == CheckedOf(Candidates(texts[..i]))
      invariant missing == MissingOf(Candidates(texts[..i]), pathExists)
      invariant probes == ProbesOf(Candidates(texts[..i]))
    {
      checked, missing, probes :=
        ScanMatches(FindAll(texts[i]), Candidates(texts[..i]), checked, missing, probes, pathExists);
      CandidatesStep(texts, i);
    }
    assert texts[..|texts|] == texts;
    ResultsConsistent(Candidates(texts), pathExists);
  }

  /** The inner loop: the matches of one file, continuing from the results
      `before` left. */
  method ScanMatches(found: seq<string>, ghost before: seq<string>,
                     checked0: set<string>, missing0: set<string>, probes0: seq<string>,
                     pathExists: string -> bool)
    returns (checked: set<string>, missing: set<string>, probes: seq<string>)
    requires checked0 == CheckedOf(before)
    requires missing0 == MissingOf(before, pathExists)
    requires probes0 == ProbesOf(before)
    ensures checked == CheckedOf(before + found)
    ensures missing == MissingOf(before + found, pathExists)
    ensures probes == ProbesOf(before + found)
    ensures checked0 <= checked && missing0 <= missing
  {
    checked, missing, probes := checked0, missing0, probes0;
    assert before + found[..0] == before;
    for j := 0 to |found|
      invariant checked == CheckedOf(before + found[..j])
      invariant missing == MissingOf(before + found[..j], pathExists)
      invariant probes == ProbesOf(before + found[..j])
    {
      ghost var seen := before + found[..j];
      var m := found[j];
      assert before + found[..j + 1] == seen + [m];
      if StartsWith(m, "//") || m == "/" {
        Unchanged(seen, m, pathExists);
        continue;
      }
      if m in checked {
        Unchanged(seen, m, pathExists);
        continue;
      }
      CheckedStep(seen, m);
      MissingStep(seen, m, pathExists);
      ProbesStep(seen, m);
      checked := checked + {m};
      probes := probes + [m];
      var present := pathExists(LStripSlash(m));
      if !present {
        missing := missing + {m};
      }
    }
    assert found[..|found|] == found;
    assert forall v :: v in before ==> v in before + found;
  }

  /** What the three results say about each other, whatever the values. */
  lemma ResultsConsistent(cs: seq<string>, pathExists: string -> bool)
    ensures MissingOf(cs, pathExists) <= CheckedOf(cs)
    ensures forall v :: v in MissingOf(cs, pathExists) <==> v in CheckedOf(cs) && !pathExists(LStripSlash(v))
    ensures NoRepeats(ProbesOf(cs)) && forall v :: v in ProbesOf(cs) <==> v in CheckedOf(cs)
  {
    ProbesMatchChecked(cs);
  }

  /** How one more value changes `checked`. */
  lemma CheckedStep(cs: seq<string>, m: string)
    ensures Skipped(m) ==> CheckedOf(cs + [m]) == CheckedOf(cs)
    ensures !Skipped(m) ==> CheckedOf(cs + [m]) == CheckedOf(cs) + {m}
  {
  }

  /** How one more value changes `missing`: only a value that passes the
      filter and does not exist is added. */
  lemma MissingStep(cs: seq<string>, m: string, pathExists: string -> bool)
    ensures Skipped(m) || pathExists(LStripSlash(m)) ==>
              MissingOf(cs + [m], pathExists) == MissingOf(cs, pathExists)
    ensures !Skipped(m) && !pathExists(LStripSlash(m)) ==>
              MissingOf(cs + [m], pathExists) == MissingOf(cs, pathExists) + {m}
  {
    CheckedStep(cs, m);
    var before, after := MissingOf(cs, pathExists), MissingOf(cs + [m], pathExists);
    if Skipped(m) || pathExists(LStripSlash(m)) {
      forall v ensures v in after <==> v in before {
      }
    } else {
      forall v ensures v in after <==> v in before + {m} {
      }
    }
  }

  /** How one more value changes the sequence of existence tests: it is
      tested only if it passes the filter and was not checked before. */
  lemma ProbesStep(cs: seq<string>, m: string)
    ensures Skipped(m) || m in CheckedOf(cs) ==> ProbesOf(cs + [m]) == ProbesOf(cs)
    ensures !Skipped(m) && m !in CheckedOf(cs) ==> ProbesOf(cs + [m]) == ProbesOf(cs) + [m]
  {
    assert (cs + [m])[..|cs|] == cs;
    KeptMembers(cs);
  }

  /** The kept values are the candidates that pass the filter. */
  lemma {:induction false} KeptMembers(cs: seq<string>)
    ensures forall v :: v in Kept(cs) <==> v in cs && !Skipped(v)
  {
    if cs != [] {
      KeptMembers(cs[..|cs| - 1]);
      assert cs == cs[..|cs| - 1] + [cs[|cs| - 1]];
    }
  }

  /** Taking first occurrences keeps every value and repeats none. */
  lemma {:induction false} FirstOccurrencesDistinct(cs: seq<string>)
    ensures NoRepeats(FirstOccurrences(cs))
    ensures forall v :: v in FirstOccurrences(cs) <==> v in cs
  {
    if cs != [] {
      var init := cs[..|cs| - 1];
      FirstOccurrencesDistinct(init);
      assert cs == init + [cs[|cs| - 1]];
    }
  }

  /** Each value that reaches the existence test is tested exactly once: the
      tests repeat nothing and cover the whole `checked` set. */
  lemma ProbesMatchChecked(cs: seq<string>)
    ensures NoRepeats(ProbesOf(cs))
    ensures forall v :: v in ProbesOf(cs) <==> v in CheckedOf(cs)
    ensures |ProbesOf(cs)| == |CheckedOf(cs)|
  {
    FirstOccurrencesDistinct(Kept(cs));
    KeptMembers(cs);
    DistinctCount(ProbesOf(cs), CheckedOf(cs));
  }

  /** A sequence without repeats has as many entries as the set of its values. */
  lemma {:induction false} DistinctCount(s: seq<string>, values: set<string>)
    requires NoRepeats(s) && forall v :: v in s <==> v in values
    ensures |s| == |values|
  {
    if s != [] {
      var init := s[..|s| - 1];
      var last := s[|s| - 1];
      assert last !in init;
      assert s == init + [last];
      DistinctCount(init, values - {last});
    }
  }

  // ---------------------------------------------------------------------
  // Properties of the results
  // ---------------------------------------------------------------------

  /** Every candidate has the shape the pattern guarantees. */
  lemma {:induction false} CandidatesWellFormed(texts: seq<string>)
    ensures forall v :: v in Candidates(texts) ==> IsCandidate(v)
  {
    if texts != [] {
      CandidatesWellFormed(texts[..|texts| - 1]);
    }
  }

  /** The bare root is never extracted, so the `match == "/"` half of the
      filter never applies. */
  lemma BareRootNeverCandidate(texts: seq<string>)
    ensures "/" !in Candidates(texts)
    ensures forall v :: v in Candidates(texts) ==> (Skipped(v) <==> StartsWith(v, "//"))
  {
    CandidatesWellFormed(texts);
  }

  /** A protocol-relative value is neither checked nor reported missing. */
  lemma ProtocolRelativeIgnored(cs: seq<string>, v: string, pathExists: string -> bool)
    requires StartsWith(v, "//")
    ensures v !in CheckedOf(cs) && v !in MissingOf(cs, pathExists)
  {
  }

  /** Every checked value has exactly one leading slash, so stripping yields
      a non-empty path relative to the root. */
  lemma CheckedPathsAreRootRelative(texts: seq<string>, v: string)
    requires v in CheckedOf(Candidates(texts))
    ensures |v| >= 2 && v[0] == '/' && v[1] != '/'
    ensures LStripSlash(v) == v[1..] && LStripSlash(v) != []
  {
    CandidatesWellFormed(texts);
    assert IsCandidate(v);
    assert v[..2] != "//";
  }

  /** The candidates of two runs of files, one after the other, are those of
      the first run followed by those of the second. */
  lemma {:induction false} CandidatesAppend(xs: seq<string>, ys: seq<string>)
    ensures Candidates(xs + ys) == Candidates(xs) + Candidates(ys)
    decreases |ys|
  {
    if ys != [] {
      var init, last := ys[..|ys| - 1], ys[|ys| - 1];
      CandidatesAppend(xs, init);
      assert (xs + ys)[..|xs + ys| - 1] == xs + init;
      assert (xs + ys)[|xs + ys| - 1] == last;
      assert Candidates(ys) == Candidates(init) + FindAll(last);
    } else {
      assert xs + ys == xs;
    }
  }

  /** Candidates of a prefix of the files come first among the candidates of
      a longer prefix. */
  lemma CandidatesPrefix(texts: seq<string>, i: nat, j: nat)
    requires i <= j <= |texts|
    ensures |Candidates(texts[..i])| <= |Candidates(texts[..j])|
    ensures Candidates(texts[..j])[..|Candidates(texts[..i])|] == Candidates(texts[..i])
  {
    assert texts[..j] == texts[..i] + texts[i..j];
    CandidatesAppend(texts[..i], texts[i..j]);
  }

  /** `checked` and `missing` only grow from one file to the next. */
  lemma ResultsOnlyGrow(texts: seq<string>, i: nat, j: nat, pathExists: string -> bool)
    requires i <= j <= |texts|
    ensures CheckedOf(Candidates(texts[..i])) <= CheckedOf(Candidates(texts[..j]))
    ensures MissingOf(Candidates(texts[..i]), pathExists) <= MissingOf(Candidates(texts[..j]), pathExists)
  {
    CandidatesPrefix(texts, i, j);
    var a := Candidates(texts[..i]);
    var b := Candidates(texts[..j]);
    forall v | v in a ensures v in b {
      var k :| 0 <= k < |a| && a[k] == v;
      assert b[..|a|][k] == v;
    }
  }

  /** A value referenced again, in the same file or another, adds nothing. */
  lemma RepeatAddsNothing(cs: seq<string>, m: string, pathExists: string -> bool)
    requires m in cs
    ensures CheckedOf(cs + [m]) == CheckedOf(cs)
    ensures MissingOf(cs + [m], pathExists) == MissingOf(cs, pathExists)
    ensures ProbesOf(cs + [m]) == ProbesOf(cs)
  {
    Unchanged(cs, m, pathExists);
  }

  /** A value the filter drops, or one already checked, leaves all three
      results as they were. */
  lemma Unchanged(cs: seq<string>, m: string, pathExists: string -> bool)
    requires Skipped(m) || m in CheckedOf(cs) || m in cs
    ensures CheckedOf(cs + [m]) == CheckedOf(cs)
    ensures MissingOf(cs + [m], pathExists) == MissingOf(cs, pathExists)
    ensures ProbesOf(cs + [m]) == ProbesOf(cs)
  {
    CheckedStep(cs, m);
    MissingStep(cs, m, pathExists);
    ProbesStep(cs, m);
  }

  // ---------------------------------------------------------------------
  // Report and exit status
  // ---------------------------------------------------------------------

  const MissingHeader := "Missing root-relative assets:"

  /** The line printed when nothing is missing. */
  function SummaryLine(checkedCount: nat, fileCount: nat): string {
    "OK: " + ToDecimal(checkedCount) + " root-relative assets verified across "
    + ToDecimal(fileCount) + " HTML files."
  }

  /** Each missing path on its own line, indented by two spaces. */
  function Indented(items: seq<string>): seq<string> {
    seq(|items|, i requires 0 <= i < |items| => "  " + items[i])
  }

  /** The lines printed and the exit status, once the loop is done. */
  method Report(checked: set<string>, missing: set<string>, fileCount: nat)
    returns (status: int, lines: seq<string>)
    ensures status == 1 <==> missing != {}
    ensures status == 0 <==> missing == {}
    ensures missing == {} ==> lines == [SummaryLine(|checked|, fileCount)]
    ensures missing != {} ==> |lines| == |missing| + 1
    ensures missing != {} ==>
              exists items :: SortedListing(items, missing) && lines == [MissingHeader] + Indented(items)
  {
    if missing != {} {
      lines := [MissingHeader];
      var items := SortedElements(missing);
      for k := 0 to |items|
        invariant lines == [MissingHeader] + Indented(items[..k])
      {
        lines := lines + ["  " + items[k]];
      }
      assert items[..|items|] == items;
      ListingCount(items, missing);
      status := 1;
      return;
    }
    status := 0;
    lines := [SummaryLine(|checked|, fileCount)];
  }

  /** The whole run: the loop over the files, then the report. Fails with
      status 1 exactly when some checked path does not exist. */
  method CheckRootAssets(texts: seq<string>, pathExists: string -> bool)
    returns (status: int, lines: seq<string>)
    ensures status == 1 <==> MissingOf(Candidates(texts), pathExists) != {}
    ensures status == 0 <==> MissingOf(Candidates(texts), pathExists) == {}
    ensures status == 0 ==> lines == [SummaryLine(|CheckedOf(Candidates(texts))|, |texts|)]
    ensures status == 1 ==>
              exists items :: SortedListing(items, MissingOf(Candidates(texts), pathExists))
                              && lines == [MissingHeader] + Indented(items)
    ensures texts == [] ==> status == 0 && lines == [SummaryLine(0, 0)]
  {
    var checked, missing, probes := Validate(texts, pathExists);
    status, lines := Report(checked, missing, |texts|);
  }
}
