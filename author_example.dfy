/** The history `B <b@x>`, `A <a@x>`, `A <a@x>`: a log naming "B <b@x>" once and
    "A <a@x>" twice gives the author list ["A <a@x>", "B <b@x>"]. */
module Examples {
  import opened PyStr
  import opened Ordering
  import opened AddHeader

  /** The log's trailing newline is stripped and nothing else. */
  lemma StripLog(a: string, b: string)
    requires a != "" && b != "" && !IsSpace(b[0]) && !IsSpace(a[|a| - 1])
    ensures Strip(b + "\n" + a + "\n" + a + "\n") == b + "\n" + a + "\n" + a
  {
    var log := b + "\n" + a + "\n" + a + "\n";
    var body := b + "\n" + a + "\n" + a;
    assert log == body + "\n";
    assert log[..|log| - 1] == body && log[|log| - 1..] == "\n" && log[..0] == [];
    assert log[0] == b[0] && log[|log| - 2] == a[|a| - 1];
    StripIsTrimmedSlice(log, 0, |log| - 1);
  }

  /** The stripped log splits into its three lines. */
  lemma SplitLog(a: string, b: string)
    requires '\n' !in a && '\n' !in b
    ensures SplitOnNewline(b + "\n" + a + "\n" + a) == [b, a, a]
  {
    SplitSingle(a);
    SplitAfterLine(a, a);
    assert b + "\n" + a + "\n" + a == b + "\n" + (a + "\n" + a);
    SplitAfterLine(b, a + "\n" + a);
  }

  /** The author list of a log naming `b` once and `a` twice is `[a, b]`. */
  lemma DuplicateAuthors(a: string, b: string)
    requires a != "" && b != "" && '\n' !in a && '\n' !in b && Less(a, b)
    requires !IsSpace(b[0]) && !IsSpace(a[|a| - 1])
    ensures AuthorNames(b + "\n" + a + "\n" + a + "\n") == [a, b]
  {
    var log := b + "\n" + a + "\n" + a + "\n";
    StripLog(a, b);
    SplitLog(a, b);
    var names := AuthorNames(log);
    assert forall y :: y in names <==> y in [b, a, a] && y != "";
    assert forall y :: y in names <==> y in [a, b];
    StrictlySortedUnique(names, [a, b]);
  }

  /** The concrete instance. */
  lemma AuthorsExample()
    ensures AuthorNames("B <b@x>\nA <a@x>\nA <a@x>\n") == ["A <a@x>", "B <b@x>"]
  {
    assert "B <b@x>\nA <a@x>\nA <a@x>\n" == "B <b@x>" + "\n" + "A <a@x>" + "\n" + "A <a@x>" + "\n";
    DuplicateAuthors("A <a@x>", "B <b@x>");
  }
}
