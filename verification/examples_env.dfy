/**
 Worked inputs for the `.env` loader, each following from the general lemmas.
 Each literal line arrives as a parameter pinned by a `requires`, so that the
 verifier composes the lemmas instead of unfolding a long string literal
 character by character.
 */
module EnvFileExamples {
  import opened Strings
  import opened EnvFile

  /** The two assignment lines of that file, each on its own. */
  lemma {:induction false} AssignmentLines(a: string, b: string)
    requires a == "A" + "=" + "1" && b == "B" + "=" + "2"
    ensures Parse(a) == [("A", "1")] && Parse(b) == [("B", "2")]
  {
    OneLinePair("A", "1");
    OneLinePair("B", "2");
  }

  lemma {:induction false} BadLineSkipped(bad: string, b: string)
    requires bad == "BADLINE" && b == "B" + "=" + "2"
    ensures Parse(bad + "\n" + b) == [("B", "2")]
  {
    AssignmentLines("A" + "=" + "1", b);
    assert '=' !in bad;
    OneLineSkipped(bad);
    ParseAppend(bad, b);
  }

  lemma {:induction false} MiddleLinesSkipped(c: string, bad: string, b: string)
    requires c == "#comment" && bad == "BADLINE" && b == "B" + "=" + "2"
    ensures Parse(c + "\n" + (bad + "\n" + b)) == [("B", "2")]
  {
    BadLineSkipped(bad, b);
    OneLineSkipped(c);
    ParseAppend(c, bad + "\n" + b);
  }

  /**
   The file `A=1`, `#comment`, `BADLINE`, `B=2`: the comment and the line
   without `=` are skipped, the two assignments survive, in order.
   */
  lemma {:induction false} MixedFile(a: string, c: string, bad: string, b: string)
    requires a == "A" + "=" + "1" && c == "#comment" && bad == "BADLINE" && b == "B" + "=" + "2"
    ensures Parse(a + "\n" + (c + "\n" + (bad + "\n" + b))) == [("A", "1"), ("B", "2")]
  {
    AssignmentLines(a, b);
    MiddleLinesSkipped(c, bad, b);
    ParseAppend(a, c + "\n" + (bad + "\n" + b));
  }

  /** The pairs of that file written over `{A: 0, C: 3}`: A is overwritten, B is added, C is kept. */
  lemma {:induction false} MixedPairsApplied(env: Env, pairs: seq<Pair>)
    requires env == map["A" := "0", "C" := "3"] && pairs == [("A", "1"), ("B", "2")]
    ensures var env' := Apply(env, pairs);
      env'.Keys == {"A", "B", "C"} && env'["A"] == "1" && env'["B"] == "2" && env'["C"] == "3"
  {
    ApplyLastWinsAll(env, pairs);
    assert LastValue(pairs, "A") == Some("1");
    assert LastValue(pairs, "B") == Some("2");
    LastValueNone(pairs, "C");
    forall key | key in Apply(env, pairs)
      ensures key in {"A", "B", "C"}
    {
      LastValueNone(pairs, key);
    }
  }

  /** Loading that file over an environment holding A and C: A is overwritten, B is added, C is kept. */
  lemma {:induction false} MixedFileLoaded(a: string, c: string, bad: string, b: string, env: Env)
    requires a == "A" + "=" + "1" && c == "#comment" && bad == "BADLINE" && b == "B" + "=" + "2"
    requires env == map["A" := "0", "C" := "3"]
    ensures var r := DotEnv(env, Content(a + "\n" + (c + "\n" + (bad + "\n" + b))));
      r.0 == Ok && r.1.Keys == {"A", "B", "C"} && r.1["A"] == "1" && r.1["B"] == "2" && r.1["C"] == "3"
  {
    var pairs := [("A", "1"), ("B", "2")];
    MixedFile(a, c, bad, b);
    MixedPairsApplied(env, pairs);
  }

  /** Nothing is trimmed: leading blanks stop `#` from marking a comment, and they stay in the key. */
  lemma {:induction false} IndentedHashIsAKey(k: string, v: string)
    requires k == "  #x" && v == "1"
    ensures Parse(k + "=" + v) == [(k, v)]
  {
    OneLinePair(k, v);
  }

  /** A comment is skipped even when it contains `=`. */
  lemma {:induction false} CommentWithEquals(line: string)
    requires line == "#A=1"
    ensures Parse(line) == []
  {
    OneLineSkipped(line);
  }

  /** Only the first `=` splits: in `K=a=b` the key is `K` and the value keeps the later `=`. */
  lemma {:induction false} ValueKeepsLaterEquals(k: string, v1: string, v2: string)
    requires k == "K" && v1 == "a" && v2 == "b"
    ensures Parse(k + "=" + v1 + "=" + v2) == [(k, v1 + "=" + v2)]
  {
    assert k + "=" + v1 + "=" + v2 == k + "=" + (v1 + "=" + v2);
    OneLinePair(k, v1 + "=" + v2);
  }

  /** A CRLF file keeps the carriage return at the end of the value. */
  lemma {:induction false} CarriageReturnKept(k: string, v: string)
    requires k == "A" && v == "1\r"
    ensures Parse(k + "=" + v + "\n") == [(k, v)]
  {
    ParseEmptyAndTrailingNewline(k + "=" + v);
    OneLinePair(k, v);
  }
}
