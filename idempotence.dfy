/** Running the header hook on its own output changes nothing: the text process_file
    writes, read back with `splitlines()`, is rewritten to exactly the same text. */
module Idempotence {
  import opened PyStr
  import opened AddHeader

  /** The lines after the header when a written text is read back: an empty remainder was
      written as one empty line (`header + "\n" + "" + "\n"`). */
  function ReadBackRest(rest: seq<string>): seq<string> {
    if rest == [] then [""] else rest
  }

  /** Any block of lines that has a sentinel as its first and last line and none in between,
      written in front of newline-free lines, is found and replaced by itself. */
  lemma {:induction false} RewriteOwnOutput(h: seq<string>, rest: seq<string>)
    requires |h| >= 2 && IsSentinelLine(h[0]) && IsSentinelLine(h[|h| - 1])
    requires forall k :: 0 < k < |h| - 1 ==> !IsSentinelLine(h[k])
    requires forall k :: 0 <= k < |h| ==> '\n' !in h[k]
    requires forall k :: 0 <= k < |rest| ==> '\n' !in rest[k]
    ensures var text := JoinLines(h) + "\n" + JoinLines(rest) + "\n";
      SplitLines(text) == h + ReadBackRest(rest)
      && Rewrite(SplitLines(text), JoinLines(h)) == Some(text)
  {
    var r := ReadBackRest(rest);
    var lines := h + r;
    assert JoinLines(r) == JoinLines(rest);
    JoinAppend(h, r);
    assert forall k :: 0 <= k < |lines| ==> '\n' !in lines[k] by {
      forall k | 0 <= k < |lines| ensures '\n' !in lines[k] {
        if k >= |h| {
          assert lines[k] == r[k - |h|];
        }
      }
    }
    SplitLinesOfWritten(lines);

    var j := |h| - 1;
    var before := lines[..j];
    assert before == [h[0]] + h[1..j];
    assert before[1..] == h[1..j];
    SentinelCountNone(h[1..j]);
    assert SentinelCount(before) == 1;
    assert lines[j] == h[j];
    NthSentinelUnique(lines, 1, j);
    assert lines[j + 1..] == r;
  }

  /** What process_file writes, read back as lines, is the header followed by the lines it
      kept. */
  lemma {:induction false} WrittenFileLayout(content: seq<string>, authorLog: string, yearLog: string,
                                             currentYear: nat, licenseFile: Option<string>)
    requires forall k :: 0 <= k < |content| ==> '\n' !in content[k]
    requires '\n' !in LatestCommitYear(yearLog, currentYear)
    ensures var out := Rewrite(content, NewHeader(authorLog, yearLog, currentYear, licenseFile));
      out.Some? ==>
        SplitLines(out.value)
        == HeaderLines(AuthorSlot(AuthorNames(authorLog)), LatestCommitYear(yearLog, currentYear),
                       LicenseType(licenseFile))
           + ReadBackRest(Remainder(content))
  {
    if SentinelCount(content) > 0 {
      var h := HeaderFacts(authorLog, yearLog, currentYear, licenseFile);
      RemainderSingleLines(content);
      RewriteOwnOutput(h, Remainder(content));
    }
  }

  /** Applying the hook to the text it wrote, with the same authors, year and license,
      writes that text again. */
  lemma {:induction false} ProcessFileIdempotent(content: seq<string>, authorLog: string, yearLog: string,
                                                 currentYear: nat, licenseFile: Option<string>)
    requires forall k :: 0 <= k < |content| ==> '\n' !in content[k]
    requires '\n' !in LatestCommitYear(yearLog, currentYear)
    ensures var header := NewHeader(authorLog, yearLog, currentYear, licenseFile);
      var out := Rewrite(content, header);
      out.Some? ==> Rewrite(SplitLines(out.value), header) == out
  {
    var header := NewHeader(authorLog, yearLog, currentYear, licenseFile);
    if SentinelCount(content) > 0 {
      var h := HeaderFacts(authorLog, yearLog, currentYear, licenseFile);
      RemainderSingleLines(content);
      RewriteOwnOutput(h, Remainder(content));
    }
  }

  /** The lines process_file keeps come from the file, so they hold no newline either. */
  lemma RemainderSingleLines(content: seq<string>)
    requires SentinelCount(content) >= 1
    requires forall k :: 0 <= k < |content| ==> '\n' !in content[k]
    ensures var rest := Remainder(content); forall k :: 0 <= k < |rest| ==> '\n' !in rest[k]
  {
    if SentinelCount(content) > 1 {
      var j := NthSentinel(content, 1);
      var rest := content[j + 1..];
      forall k | 0 <= k < |rest| ensures rest[k] == content[j + 1 + k] {
      }
    }
  }

  /** The new header's lines, with the facts RewriteOwnOutput needs. */
  lemma HeaderFacts(authorLog: string, yearLog: string, currentYear: nat, licenseFile: Option<string>)
    returns (h: seq<string>)
    requires '\n' !in LatestCommitYear(yearLog, currentYear)
    ensures h == HeaderLines(AuthorSlot(AuthorNames(authorLog)), LatestCommitYear(yearLog, currentYear),
                             LicenseType(licenseFile))
    ensures JoinLines(h) == NewHeader(authorLog, yearLog, currentYear, licenseFile)
    ensures |h| >= 2 && IsSentinelLine(h[0]) && IsSentinelLine(h[|h| - 1])
    ensures forall k :: 0 < k < |h| - 1 ==> !IsSentinelLine(h[k])
    ensures forall k :: 0 <= k < |h| ==> '\n' !in h[k]
  {
    var names := AuthorNames(authorLog);
    var year := LatestCommitYear(yearLog, currentYear);
    var license := LicenseType(licenseFile);
    assert '\n' !in license;
    HeaderShape(names, year, license);
    HeaderLinesShape(names, year, license);
    h := HeaderLines(AuthorSlot(names), year, license);
    JoinSplit(NewHeader(authorLog, yearLog, currentYear, licenseFile));
  }
}
