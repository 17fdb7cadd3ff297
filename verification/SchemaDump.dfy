/**
Cleaning a schema dump: session settings, ownership and privilege statements are dropped line by
line, and everything else is kept as it stands.
*/
module SchemaDump {
  import opened Text

  // ---------------------------------------------------------------- lines

  /** The pieces of `s` between line breaks; the empty string is one empty line. */
  function SplitLines(s: string): (lines: seq<string>)
    ensures lines != []
    ensures forall i :: 0 <= i < |lines| ==> '\n' !in lines[i]
  {
    if s == "" then [""]
    else
      var lines, c := SplitLines(s[..|s| - 1]), s[|s| - 1];
      var n := |lines| - 1;
      if c == '\n' then lines + [""] else lines[..n] + [lines[n] + [c]]
  }

  function JoinLines(lines: seq<string>): string {
    if lines == [] then ""
    else if |lines| == 1 then lines[0]
    else JoinLines(lines[..|lines| - 1]) + "\n" + lines[|lines| - 1]
  }

  lemma {:induction false} SplitAppend(s: string, t: string)
    requires '\n' !in t
    ensures var lines := SplitLines(s);
            SplitLines(s + t) == lines[..|lines| - 1] + [lines[|lines| - 1] + t]
  {
    var lines := SplitLines(s);
    if t == "" {
      assert s + t == s && lines[|lines| - 1] + t == lines[|lines| - 1];
    } else {
      var init, c := t[..|t| - 1], t[|t| - 1];
      SplitAppend(s, init);
      assert (s + t)[..|s + t| - 1] == s + init;
      assert lines[|lines| - 1] + t == lines[|lines| - 1] + init + [c];
    }
  }

  lemma SplitNextLine(s: string, line: string)
    requires '\n' !in line
    ensures SplitLines(s + "\n" + line) == SplitLines(s) + [line]
  {
    var lines := SplitLines(s);
    assert (s + "\n")[..|s|] == s;
    assert SplitLines(s + "\n") == lines + [""];
    SplitAppend(s + "\n", line);
    assert (lines + [""])[..|lines|] == lines && "" + line == line;
  }

  /** Splitting undoes joining, for any non-empty list of lines without line breaks. */
  lemma {:induction false} SplitOfJoin(lines: seq<string>)
    requires lines != [] && forall i :: 0 <= i < |lines| ==> '\n' !in lines[i]
    ensures SplitLines(JoinLines(lines)) == lines
  {
    var n := |lines| - 1;
    var last := lines[n];
    if n == 0 {
      SplitAppend("", last);
      assert "" + last == last && lines == [last];
    } else {
      var init := lines[..n];
      SplitOfJoin(init);
      SplitNextLine(JoinLines(init), last);
    }
  }

  /** And joining undoes splitting. */
  lemma {:induction false} JoinOfSplit(s: string)
    ensures JoinLines(SplitLines(s)) == s
  {
    if s != "" {
      var init, c := s[..|s| - 1], s[|s| - 1];
      var lines := SplitLines(init);
      var n := |lines| - 1;
      JoinOfSplit(init);
      if c == '\n' {
        assert (lines + [""])[..n + 1] == lines;
      } else {
        var longer := lines[..n] + [lines[n] + [c]];
        assert longer[..n] == lines[..n];
        assert JoinLines(longer) == JoinLines(lines) + [c];
      }
      assert s == init + [c];
    }
  }

  // ---------------------------------------------------------------- which lines go

  const DROP_PREFIXES := ["SET ", "SELECT pg_catalog.set_config", "COMMENT ON EXTENSION", "REVOKE ", "GRANT "]

  const OWNED_KINDS := ["ALTER TABLE ", "ALTER SEQUENCE ", "ALTER SCHEMA ", "ALTER VIEW ", "ALTER FUNCTION ",
                        "ALTER DATABASE "]

  predicate ShouldDropLine(trimmed: string) {
    StartsWithAny(DROP_PREFIXES, trimmed) || (StartsWithAny(OWNED_KINDS, trimmed) && Contains(trimmed, " OWNER TO "))
  }

  predicate StartsWithAny(ps: seq<string>, s: string) {
    exists i | 0 <= i < |ps| :: ps[i] <= s
  }

  lemma AnyOfFive(ps: seq<string>, s: string)
    requires |ps| == 5
    ensures StartsWithAny(ps, s) <==> ps[0] <= s || ps[1] <= s || ps[2] <= s || ps[3] <= s || ps[4] <= s
  {}

  lemma AnyOfSix(ps: seq<string>, s: string)
    requires |ps| == 6
    ensures StartsWithAny(ps, s) <==> ps[0] <= s || ps[1] <= s || ps[2] <= s || ps[3] <= s || ps[4] <= s || ps[5] <= s
  {}

  /** The lines to drop, spelled out. */
  lemma DropsIff(s: string)
    ensures ShouldDropLine(s) <==>
            || "SET " <= s || "SELECT pg_catalog.set_config" <= s || "COMMENT ON EXTENSION" <= s
            || "REVOKE " <= s || "GRANT " <= s
            || (("ALTER TABLE " <= s || "ALTER SEQUENCE " <= s || "ALTER SCHEMA " <= s || "ALTER VIEW " <= s
                 || "ALTER FUNCTION " <= s || "ALTER DATABASE " <= s)
                && exists a, b :: s == a + " OWNER TO " + b)
  {
    SettingsSpelled(s);
    KindsSpelled(s);
    ContainsIff(s, " OWNER TO ");
  }

  lemma SettingsSpelled(s: string)
    ensures StartsWithAny(DROP_PREFIXES, s) <==>
            || "SET " <= s || "SELECT pg_catalog.set_config" <= s || "COMMENT ON EXTENSION" <= s
            || "REVOKE " <= s || "GRANT " <= s
  {
    AnyOfFive(DROP_PREFIXES, s);
  }

  lemma KindsSpelled(s: string)
    ensures StartsWithAny(OWNED_KINDS, s) <==>
            || "ALTER TABLE " <= s || "ALTER SEQUENCE " <= s || "ALTER SCHEMA " <= s || "ALTER VIEW " <= s
            || "ALTER FUNCTION " <= s || "ALTER DATABASE " <= s
  {
    AnyOfSix(OWNED_KINDS, s);
  }

  lemma ContainsIff(s: string, p: string)
    ensures Contains(s, p) <==> exists a, b :: s == a + p + b
  {
    if Contains(s, p) {
      var i :| 0 <= i <= |s| - |p| && FoundAt(s, p, i);
      assert s == s[..i] + p + s[i + |p|..];
    }
    if a, b :| s == a + p + b {
      assert s[|a|..|a| + |p|] == p;
      assert FoundAt(s, p, |a|);
    }
  }

  /** Blank lines stay; other lines stay unless they are to be dropped. */
  predicate Keeps(line: string) {
    TrimSpace(line) == "" || !ShouldDropLine(TrimSpace(line))
  }

  function KeptLines(lines: seq<string>): seq<string> {
    Filter(lines, Keeps)
  }

  function Sanitized(contents: string): string {
    JoinLines(KeptLines(SplitLines(contents)))
  }

  method SanitizeDump(contents: string) returns (out: string)
    ensures out == Sanitized(contents)
  {
    var lines := SplitLines(contents);
    var filtered := [];
    for i := 0 to |lines|
      invariant filtered == KeptLines(lines[..i])
    {
      assert lines[..i + 1][..i] == lines[..i];
      var trimmed := TrimSpace(lines[i]);
      if trimmed == "" {
        filtered := filtered + [lines[i]];
        continue;
      }
      if ShouldDropLine(trimmed) {
        continue;
      }
      filtered := filtered + [lines[i]];
    }
    assert lines[..|lines|] == lines;
    out := JoinLines(filtered);
  }

  // ---------------------------------------------------------------- properties

  /** The lines of the output are the kept lines of the input; when none is kept, one empty line. */
  lemma OutputLines(contents: string)
    ensures var kept := KeptLines(SplitLines(contents));
            SplitLines(Sanitized(contents)) == if kept == [] then [""] else kept
  {
    var lines := SplitLines(contents);
    var kept := KeptLines(lines);
    if kept != [] {
      forall i | 0 <= i < |kept| ensures '\n' !in kept[i] {
        assert kept[i] in lines;
      }
      SplitOfJoin(kept);
    }
  }

  /** Cleaning twice is cleaning once, for every input. */
  lemma SanitizeIsIdempotent(contents: string)
    ensures Sanitized(Sanitized(contents)) == Sanitized(contents)
  {
    OutputLines(contents);
    var out := SplitLines(Sanitized(contents));
    assert Keeps("");
    FilterAll(out, Keeps);
    JoinOfSplit(Sanitized(contents));
  }

  /** The kept lines are exactly the lines that should be kept, in their order. */
  lemma KeptInOrder(lines: seq<string>) returns (kept: seq<nat>)
    ensures Picks(KeptLines(lines), lines, kept)
    ensures forall k :: 0 <= k < |lines| ==> (k in kept <==> Keeps(lines[k]))
  {
    kept := FilterInOrder(lines, Keeps);
  }

  /** Whether a line is kept depends on its text, not on the white space around it, and blank lines are kept. */
  lemma KeepsTrimmed(left: string, core: string, right: string)
    requires AllSpace(left) && AllSpace(right) && (core != "" ==> !IsSpace(core[0]) && !IsSpace(core[|core| - 1]))
    ensures Keeps(left + core + right) <==> core == "" || !ShouldDropLine(core)
  {
    TrimPadded(left, core, right);
  }

  /** Nothing changes exactly when there is no line to drop. */
  lemma UnchangedIff(contents: string)
    ensures Sanitized(contents) == contents <==> forall line :: line in SplitLines(contents) ==> Keeps(line)
  {
    var lines := SplitLines(contents);
    assert Keeps("");
    OutputLines(contents);
    if Sanitized(contents) == contents {
      forall line | line in lines ensures Keeps(line) {}
    }
    if forall line :: line in lines ==> Keeps(line) {
      FilterAll(lines, Keeps);
      JoinOfSplit(contents);
    }
  }
}
