/** The header hook of pre_commit_hooks/add_header.py. The `git log` outputs, the current
    year, the LICENSE file and the target file's lines are parameters; a file is the
    sequence of its lines, and the text written back is `Some(text)`, or `None` when the
    hook leaves the file untouched. */
module AddHeader {
  import opened PyStr
  import opened Ordering

  datatype Option<T> = None | Some(value: T)

  /** `n` copies of `c`. */
  function Repeat(c: char, n: nat): (r: string)
    ensures |r| == n && forall i :: 0 <= i < n ==> r[i] == c
  {
    if n == 0 then "" else [c] + Repeat(c, n - 1)
  }

  /** The line that opens and closes a header: "# " followed by 65 '=' characters. */
  const Sentinel: string := "# " + Repeat('=', 65)

  /* ---------------- get_authors ---------------- */

  /** The authors get_authors sorts: the lines of the stripped `git log` output, each once,
      without the empty line, in increasing order. */
  function AuthorNames(log: string): (names: seq<string>)
    ensures StrictlySorted(names)
    ensures forall a :: a in names <==> a in SplitOnNewline(Strip(log)) && a != ""
    ensures forall k :: 0 <= k < |names| ==> '\n' !in names[k]
  {
    var pieces := SplitOnNewline(Strip(log));
    var names := SortedDistinctNonEmpty(pieces);
    assert forall k :: 0 <= k < |names| ==> names[k] in pieces;
    names
  }

  function AuthorLine(name: string): string {
    "# Authors: " + name
  }

  /** One author line per name, in the order of the names. */
  function AuthorLines(names: seq<string>): (lines: seq<string>)
    ensures |lines| == |names|
    ensures forall k :: 0 <= k < |names| ==> lines[k] == AuthorLine(names[k])
  {
    if |names| == 0 then [] else [AuthorLine(names[0])] + AuthorLines(names[1..])
  }

  /** What get_authors returns: the author lines joined by newlines. */
  function AuthorBlock(names: seq<string>): string {
    JoinLines(AuthorLines(names))
  }

  /** The header lines the `{authors}` slot turns into: the author lines, or one empty
      line when there are no authors. */
  function AuthorSlot(names: seq<string>): seq<string> {
    if names == [] then [""] else AuthorLines(names)
  }

  /** The author block holds exactly one line per author, in order, and is the empty
      string (one empty line) when there is no author. */
  lemma AuthorBlockLines(names: seq<string>)
    requires forall k :: 0 <= k < |names| ==> '\n' !in names[k]
    ensures SplitOnNewline(AuthorBlock(names)) == AuthorSlot(names)
    ensures names == [] <==> AuthorBlock(names) == ""
  {
    if names != [] {
      var lines := AuthorLines(names);
      assert forall k :: 0 <= k < |lines| ==> '\n' !in lines[k] by {
        forall k | 0 <= k < |lines| ensures '\n' !in lines[k] {
          assert lines[k] == "# Authors: " + names[k];
        }
      }
      SplitJoin(lines);
      assert AuthorBlock(names) != "" by {
        assert SplitOnNewline("") == [""];
        assert lines[0] != "";
      }
    }
  }

  /* ---------------- get_latest_commit_year ---------------- */

  /** `result.stdout.strip() or str(current_year)` */
  function LatestCommitYear(stdout: string, currentYear: nat): (year: string)
    ensures year != ""
    ensures Strip(stdout) != "" ==> year == Strip(stdout)
    ensures Strip(stdout) == "" ==>
      IsDecimal(year) && ParseDecimal(year) == currentYear && (year == "0" || year[0] != '0')
  {
    if Strip(stdout) != "" then Strip(stdout)
    else
      ParseDecimalString(currentYear);
      DecimalString(currentYear)
  }

  /** The fallback year is exactly `str(current_year)`, and a `git log -1` output made only
      of whitespace (an untracked file gives the empty output) falls back to it. */
  lemma BlankYearLogFallsBack(stdout: string, currentYear: nat)
    requires AllSpace(stdout)
    ensures LatestCommitYear(stdout, currentYear) == DecimalString(currentYear)
  {
    StripAllSpace(stdout);
    DecimalStringUnique(LatestCommitYear(stdout, currentYear));
  }

  /* ---------------- get_license_type ---------------- */

  const Labels: set<string> :=
    {"MIT License", "Apache License 2.0", "GNU General Public License", "BSD License", "Unknown License"}

  /** The label for the LICENSE file, `None` when there is no such file. */
  function LicenseType(licenseFile: Option<string>): (kind: string)
    ensures kind in Labels
    ensures licenseFile.None? ==> kind == "MIT License"
  {
    if licenseFile.None? then "MIT License"
    else
      var content := Lower(licenseFile.value);
      if Contains(content, "mit license") then "MIT License"
      else if Contains(content, "apache license") then "Apache License 2.0"
      else if Contains(content, "gnu general public license") then "GNU General Public License"
      else if Contains(content, "bsd license") then "BSD License"
      else "Unknown License"
  }

  /** Each label is chosen exactly when its keyword occurs in the lower-cased text and no
      keyword of higher priority does. */
  lemma LicensePriority(text: string)
    ensures var c := Lower(text); var kind := LicenseType(Some(text));
      (kind == "MIT License" <==> Contains(c, "mit license"))
      && (kind == "Apache License 2.0" <==> !Contains(c, "mit license") && Contains(c, "apache license"))
      && (kind == "GNU General Public License" <==>
            !Contains(c, "mit license") && !Contains(c, "apache license")
            && Contains(c, "gnu general public license"))
      && (kind == "BSD License" <==>
            !Contains(c, "mit license") && !Contains(c, "apache license")
            && !Contains(c, "gnu general public license") && Contains(c, "bsd license"))
      && (kind == "Unknown License" <==>
            !Contains(c, "mit license") && !Contains(c, "apache license")
            && !Contains(c, "gnu general public license") && !Contains(c, "bsd license"))
  {
  }

  /** The label depends on the letter case of the text only through its lower-cased form. */
  lemma LicenseCaseInsensitive(text: string)
    ensures LicenseType(Some(text)) == LicenseType(Some(Lower(text)))
  {
    LowerIdempotent(text);
  }

  /** A text holding "mit license" in any case is MIT whatever else surrounds it. */
  lemma MitLicenseDominates(before: string, text: string, after: string)
    requires Contains(Lower(text), "mit license")
    ensures LicenseType(Some(before + text + after)) == "MIT License"
  {
    LowerAppend(before + text, after);
    LowerAppend(before, text);
    ContainsInContext(Lower(before), Lower(text), Lower(after), "mit license");
  }

  /* ---------------- HEADER_TEMPLATE ---------------- */

  function CopyrightLine(year: string): string {
    "# Copyright (c) " + year + " Lincoln Institute of Land Policy"
  }

  function LicenseLine(license: string): string {
    "# Licensed under the " + license + "."
  }

  /** `HEADER_TEMPLATE.format(authors=authors, year=year, license_type=license)` */
  function FormatTemplate(authors: string, year: string, license: string): string {
    "\n"
    + Sentinel + "\n#\n"
    + authors + "\n#\n"
    + "# Copyright (c) " + year + " Lincoln Institute of Land Policy" + "\n#\n"
    + "# Licensed under the " + license + "." + "\n#\n"
    + Sentinel + "\n"
  }

  /** The `new_header` of process_file: the formatted template, stripped. */
  function RenderHeader(authors: string, year: string, license: string): string {
    Strip(FormatTemplate(authors, year, license))
  }

  /** The lines of a rendered header, given what the `{authors}` slot splits into. */
  function HeaderLines(slot: seq<string>, year: string, license: string): seq<string> {
    [Sentinel, "#"] + slot + ["#", CopyrightLine(year), "#", LicenseLine(license), "#", Sentinel]
  }

  /** Joining a line in front of at least one more line. */
  lemma JoinCons(x: string, rest: seq<string>)
    requires |rest| >= 1
    ensures JoinLines([x] + rest) == x + "\n" + JoinLines(rest)
  {
    assert ([x] + rest)[1..] == rest;
  }

  /** Joining the lines of a header, for any opening and closing line `s`. */
  lemma {:induction false} JoinHeaderLines(s: string, slot: seq<string>, copyright: string, license: string)
    requires |slot| >= 1
    ensures JoinLines([s, "#"] + slot + ["#", copyright, "#", license, "#", s])
      == s + "\n#\n" + JoinLines(slot) + "\n#\n" + copyright + "\n#\n" + license + "\n#\n" + s
  {
    var tail := ["#", copyright, "#", license, "#", s];
    JoinCons("#", [s]);
    JoinCons(license, ["#", s]);
    JoinCons("#", [license, "#", s]);
    JoinCons(copyright, ["#", license, "#", s]);
    JoinCons("#", [copyright, "#", license, "#", s]);
    assert [s, "#"] == [s] + ["#"];
    JoinCons(s, ["#"]);
    JoinAppend([s, "#"], slot);
    JoinAppend([s, "#"] + slot, tail);
  }

  /** Stripping a text wrapped in newlines that starts and ends with non-whitespace
      removes exactly the two newlines. */
  lemma StripWrapped(core: string)
    requires |core| > 0 && !IsSpace(core[0]) && !IsSpace(core[|core| - 1])
    ensures Strip("\n" + core + "\n") == core
  {
    var t := "\n" + core + "\n";
    assert t[1..|t| - 1] == core;
    assert t[..1] == "\n" && t[|t| - 1..] == "\n";
    StripIsTrimmedSlice(t, 1, |t| - 1);
  }

  /** The template's pieces, regrouped into the header lines' pieces. */
  lemma Regroup(n: string, s: string, h: string, a: string, c1: string, y: string, c2: string,
                l1: string, lic: string, l2: string)
    ensures n + s + h + a + h + c1 + y + c2 + h + l1 + lic + l2 + h + s + n
      == n + (s + h + a + h + (c1 + y + c2) + h + (l1 + lic + l2) + h + s) + n
  {
  }

  /** Stripping the formatted template removes exactly its outer newlines, and what is
      left is the header's lines joined by newlines. */
  lemma {:induction false} RenderHeaderJoinsLines(authors: string, year: string, license: string)
    ensures RenderHeader(authors, year, license)
      == JoinLines(HeaderLines(SplitOnNewline(authors), year, license))
  {
    var a := SplitOnNewline(authors);
    JoinSplit(authors);
    JoinHeaderLines(Sentinel, a, CopyrightLine(year), LicenseLine(license));
    var core := JoinLines(HeaderLines(a, year, license));
    Regroup("\n", Sentinel, "\n#\n", authors, "# Copyright (c) ", year, " Lincoln Institute of Land Policy",
      "# Licensed under the ", license, ".");
    assert core[0] == Sentinel[0] == '#';
    var front := Sentinel + "\n#\n" + authors + "\n#\n" + CopyrightLine(year) + "\n#\n"
      + LicenseLine(license) + "\n#\n";
    assert core == front + Sentinel;
    assert core[|core| - 1] == Sentinel[|Sentinel| - 1] == '=';
    StripWrapped(core);
  }

  /** The sentinel strips to itself and is a single line. */
  lemma SentinelIsSentinelLine()
    ensures IsSentinelLine(Sentinel)
    ensures '\n' !in Sentinel
  {
    assert Sentinel[0] == '#' && Sentinel[|Sentinel| - 1] == '=';
    assert Sentinel[..0] == [] && Sentinel[|Sentinel|..] == [];
    StripIsTrimmedSlice(Sentinel, 0, |Sentinel|);
    assert Sentinel[..|Sentinel|] == Sentinel;
    assert forall i :: 0 <= i < |Sentinel| ==> Sentinel[i] != '\n' by {
      forall i | 0 <= i < |Sentinel| ensures Sentinel[i] != '\n' {
        if i >= 2 {
          assert Sentinel[i] == Repeat('=', 65)[i - 2];
        }
      }
    }
  }

  /** A line that begins with a non-blank piece whose third character is not '=' does not
      strip to the sentinel. */
  lemma NotSentinelByPrefix(line: string, p: string)
    requires p <= line && |p| >= 3 && !IsSpace(p[0]) && !IsSpace(p[|p| - 1]) && p[2] != '='
    ensures !IsSentinelLine(line)
  {
    StripKeepsPrefix(line, p);
    assert Strip(line)[2] == p[2];
    assert Sentinel[2] == '=';
  }

  /** Neither the empty line nor "#" strips to the sentinel. */
  lemma ShortLineNotSentinel(line: string)
    requires line == "" || line == "#"
    ensures !IsSentinelLine(line)
  {
    if line == "#" {
      assert line[..0] == [] && line[1..] == [];
      StripIsTrimmedSlice(line, 0, 1);
      assert line[0..1] == line;
    }
  }

  /** No line of the `{authors}` slot strips to the sentinel or holds a newline. */
  lemma SlotLines(names: seq<string>)
    requires forall k :: 0 <= k < |names| ==> '\n' !in names[k]
    ensures var slot := AuthorSlot(names);
      forall k :: 0 <= k < |slot| ==> !IsSentinelLine(slot[k]) && '\n' !in slot[k]
  {
    var slot := AuthorSlot(names);
    forall k | 0 <= k < |slot| ensures !IsSentinelLine(slot[k]) && '\n' !in slot[k] {
      if names == [] {
        ShortLineNotSentinel(slot[k]);
      } else {
        assert slot[k] == "# Authors: " + names[k];
        NotSentinelByPrefix(slot[k], "# A");
      }
    }
  }

  /** The copyright line is neither a sentinel nor holds a newline. */
  lemma CopyrightLineShape(year: string)
    requires '\n' !in year
    ensures !IsSentinelLine(CopyrightLine(year)) && '\n' !in CopyrightLine(year)
  {
    NotSentinelByPrefix(CopyrightLine(year), "# C");
  }

  /** The license line is neither a sentinel nor holds a newline. */
  lemma LicenseLineShape(license: string)
    requires '\n' !in license
    ensures !IsSentinelLine(LicenseLine(license)) && '\n' !in LicenseLine(license)
  {
    NotSentinelByPrefix(LicenseLine(license), "# L");
  }

  /** The header lines: the sentinel first and last, no sentinel in between, no newline. */
  lemma {:induction false} HeaderLinesShape(names: seq<string>, year: string, license: string)
    requires forall k :: 0 <= k < |names| ==> '\n' !in names[k]
    requires '\n' !in year && '\n' !in license
    ensures var lines := HeaderLines(AuthorSlot(names), year, license);
      IsSentinelLine(lines[0]) && IsSentinelLine(lines[|lines| - 1])
      && (forall k :: 0 < k < |lines| - 1 ==> !IsSentinelLine(lines[k]))
      && (forall k :: 0 <= k < |lines| ==> '\n' !in lines[k])
  {
    var slot := AuthorSlot(names);
    var lines := HeaderLines(slot, year, license);
    SentinelIsSentinelLine();
    SlotLines(names);
    ShortLineNotSentinel("#");
    CopyrightLineShape(year);
    LicenseLineShape(license);
    forall k | 0 <= k < |lines|
      ensures (0 < k < |lines| - 1 ==> !IsSentinelLine(lines[k])) && '\n' !in lines[k]
    {
      if 2 <= k < |slot| + 2 {
        assert lines[k] == slot[k - 2];
      }
    }
  }

  /** The rendered header, read as lines, is the header lines. */
  lemma {:induction false} HeaderShape(names: seq<string>, year: string, license: string)
    requires forall k :: 0 <= k < |names| ==> '\n' !in names[k]
    requires '\n' !in year && '\n' !in license
    ensures SplitOnNewline(RenderHeader(AuthorBlock(names), year, license))
      == HeaderLines(AuthorSlot(names), year, license)
  {
    AuthorBlockLines(names);
    RenderHeaderJoinsLines(AuthorBlock(names), year, license);
    HeaderLinesShape(names, year, license);
    SplitJoin(HeaderLines(AuthorSlot(names), year, license));
  }

  /* ---------------- the sentinel scan of process_file ---------------- */

  /** `line.strip() == "# ===...==="` */
  predicate IsSentinelLine(line: string) {
    Strip(line) == Sentinel
  }

  /** The number of lines that strip to the sentinel. */
  function SentinelCount(lines: seq<string>): nat {
    if |lines| == 0 then 0
    else (if IsSentinelLine(lines[0]) then 1 else 0) + SentinelCount(lines[1..])
  }

  /** Counting sentinel lines distributes over concatenation. */
  lemma {:induction false} SentinelCountAppend(a: seq<string>, b: seq<string>)
    ensures SentinelCount(a + b) == SentinelCount(a) + SentinelCount(b)
  {
    if |a| > 0 {
      assert (a + b)[1..] == a[1..] + b;
      SentinelCountAppend(a[1..], b);
    } else {
      assert a + b == b;
    }
  }

  /** Some line strips to the sentinel exactly when the count is positive. */
  lemma {:induction false} SentinelCountPositive(lines: seq<string>)
    ensures SentinelCount(lines) > 0 <==> exists i :: 0 <= i < |lines| && IsSentinelLine(lines[i])
  {
    if |lines| > 0 {
      SentinelCountPositive(lines[1..]);
      if !IsSentinelLine(lines[0]) {
        forall i | 0 < i < |lines| ensures lines[i] == lines[1..][i - 1] {
        }
      } else {
        assert IsSentinelLine(lines[0]);
      }
    }
  }

  /** Lines none of which strips to the sentinel count zero sentinel lines. */
  lemma {:induction false} SentinelCountNone(lines: seq<string>)
    requires forall k :: 0 <= k < |lines| ==> !IsSentinelLine(lines[k])
    ensures SentinelCount(lines) == 0
  {
    if |lines| > 0 {
      SentinelCountNone(lines[1..]);
    }
  }

  /** The index of the sentinel line with `n` sentinel lines before it. */
  function NthSentinel(lines: seq<string>, n: nat): (j: nat)
    requires n < SentinelCount(lines)
    ensures j < |lines| && IsSentinelLine(lines[j]) && SentinelCount(lines[..j]) == n
  {
    var here := if IsSentinelLine(lines[0]) then 1 else 0;
    if here == 1 && n == 0 then
      assert lines[..0] == [];
      0
    else
      var j := NthSentinel(lines[1..], n - here);
      var before := lines[..1 + j];
      assert before[0] == lines[0] && before[1..] == lines[1..][..j];
      1 + j
  }

  /** A sentinel line with `n` sentinel lines before it is the one NthSentinel finds. */
  lemma {:induction false} NthSentinelUnique(lines: seq<string>, n: nat, j: nat)
    requires j < |lines| && IsSentinelLine(lines[j]) && SentinelCount(lines[..j]) == n
    ensures n < SentinelCount(lines) && NthSentinel(lines, n) == j
  {
    assert n < SentinelCount(lines) by {
      assert lines == lines[..j] + lines[j..];
      SentinelCountAppend(lines[..j], lines[j..]);
      assert lines[j..][0] == lines[j];
    }
    if j > 0 {
      var here := if IsSentinelLine(lines[0]) then 1 else 0;
      var tail := lines[1..];
      assert SentinelCount(lines[..j]) == here + SentinelCount(tail[..j - 1]) by {
        var before := lines[..j];
        assert before[0] == lines[0] && before[1..] == tail[..j - 1];
      }
      assert tail[j - 1] == lines[j];
      NthSentinelUnique(tail, n - here, j - 1);
      NthSentinelStep(lines, n);
    }
  }

  /** Past a first line that is not the sought sentinel, NthSentinel looks at the rest. */
  lemma NthSentinelStep(lines: seq<string>, n: nat)
    requires n < SentinelCount(lines)
    requires var here := if IsSentinelLine(lines[0]) then 1 else 0;
      n >= here && n - here < SentinelCount(lines[1..]) && !(here == 1 && n == 0)
    ensures var here := if IsSentinelLine(lines[0]) then 1 else 0;
      NthSentinel(lines, n) == 1 + NthSentinel(lines[1..], n - here)
  {
  }

  /** The lines process_file keeps after the new header: all of them when there is one
      sentinel line, and those after the second sentinel line when there are more. */
  function Remainder(lines: seq<string>): seq<string>
    requires SentinelCount(lines) >= 1
  {
    if SentinelCount(lines) == 1 then lines else lines[NthSentinel(lines, 1) + 1..]
  }

  /** What process_file writes for a file with these lines and this new header; `None`
      when it writes nothing. */
  function Rewrite(lines: seq<string>, header: string): Option<string> {
    if SentinelCount(lines) == 0 then None
    else Some(header + "\n" + JoinLines(Remainder(lines)) + "\n")
  }

  /** The three outcomes of the scan, stated without the scan: no sentinel line, nothing
      written; one, the header goes in front of every line; a second one at `j`, everything
      up to and including line `j` is dropped and everything after it is kept as it is. */
  lemma RewriteCases(lines: seq<string>, header: string)
    ensures Rewrite(lines, header).Some? <==>
      exists i :: 0 <= i < |lines| && IsSentinelLine(lines[i])
    ensures SentinelCount(lines) == 1 ==>
      Rewrite(lines, header) == Some(header + "\n" + JoinLines(lines) + "\n")
    ensures forall j :: 0 <= j < |lines| && IsSentinelLine(lines[j]) && SentinelCount(lines[..j]) == 1 ==>
      Rewrite(lines, header) == Some(header + "\n" + JoinLines(lines[j + 1..]) + "\n")
  {
    SentinelCountPositive(lines);
    forall j | 0 <= j < |lines| && IsSentinelLine(lines[j]) && SentinelCount(lines[..j]) == 1
      ensures Rewrite(lines, header) == Some(header + "\n" + JoinLines(lines[j + 1..]) + "\n")
    {
      NthSentinelUnique(lines, 1, j);
    }
  }

  /* ---------------- process_file ---------------- */

  /** The header process_file renders from the two `git log` outputs, the current year and
      the LICENSE file. */
  function NewHeader(authorLog: string, yearLog: string, currentYear: nat, licenseFile: Option<string>): string {
    RenderHeader(AuthorBlock(AuthorNames(authorLog)), LatestCommitYear(yearLog, currentYear), LicenseType(licenseFile))
  }

  /** process_file on a file whose lines are `content`: a single pass over every line,
      stopping at the second sentinel line; returns the text written, or `None` when the
      file is left as it is. */
  method ProcessFile(content: seq<string>, authorLog: string, yearLog: string, currentYear: nat,
                     licenseFile: Option<string>)
    returns (written: Option<string>)
    ensures written == Rewrite(content, NewHeader(authorLog, yearLog, currentYear, licenseFile))
  {
    var authors := AuthorBlock(AuthorNames(authorLog));
    var year := LatestCommitYear(yearLog, currentYear);
    var licenseType := LicenseType(licenseFile);
    var newHeader := RenderHeader(authors, year, licenseType);

    var headerEndIdx := -1;
    var found := false;
    var i := 0;
    while i < |content|
      invariant 0 <= i <= |content|
      invariant SentinelCount(content[..i]) <= 1
      invariant found <==> SentinelCount(content[..i]) == 1
      invariant headerEndIdx == -1
    {
      assert content[..i + 1] == content[..i] + [content[i]];
      SentinelCountAppend(content[..i], [content[i]]);
      if IsSentinelLine(content[i]) {
        if found {
          headerEndIdx := i + 1;
          break;
        } else {
          found := true;
        }
      }
      i := i + 1;
    }

    var lines := content;
    if found {
      if headerEndIdx > 0 {
        NthSentinelUnique(content, 1, i);
        lines := content[headerEndIdx..];
      } else {
        assert content[..i] == content;
      }
      written := Some(newHeader + "\n" + JoinLines(lines) + "\n");
    } else {
      assert content[..i] == content;
      written := None;
    }
  }
}
