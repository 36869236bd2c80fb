/**
 The `.env` override loader (`DotEnv` in utils/utils.go). The file read is
 abstracted to a `ReadResult`, and the process environment to an immutable
 map that the loader returns updated instead of mutating.
 */
module EnvFile {
  import opened Strings

  type Env = map<string, string>
  type Pair = (string, string)

  /** What reading `.env` produced: absence, another failure, or the bytes of the file. */
  datatype ReadResult = NotExist | ReadError(cause: string) | Content(text: string)

  /** `nil`, or an error that wraps the read failure with the loader's message. */
  datatype Outcome = Ok | Err(cause: string) {
    function Message(): string
    {
      match this
      case Ok => ""
      case Err(cause) => ReadErrorPrefix + cause
    }
  }

  const ReadErrorPrefix := "failed to read .env: "

  /** A line that begins with `#`; nothing is trimmed before the test. */
  predicate IsComment(line: string)
    ensures IsComment(line) <==> |line| >= |"#"| && line[..|"#"|] == "#"
  {
    HasPrefix(line, '#')
  }

  /** The line a pair would be written as. */
  function LineOf(p: Pair): string {
    p.0 + "=" + p.1
  }

  /**
   One line of the file: a comment or a line without `=` gives nothing;
   any other line gives the text before its first `=` as the key and the rest,
   verbatim, as the value.
   */
  function ParseLine(line: string): (r: Option<Pair>)
    ensures r.Some? <==> !IsComment(line) && '=' in line
    ensures r.Some? ==> '=' !in r.value.0 && LineOf(r.value) == line
  {
    if IsComment(line) then None
    else
      var parts := SplitN2(line, '=');
      if |parts| != 2 then None else Some((parts[0], parts[1]))
  }

  /** A key with no `=` and a line that is not a comment comes back from its own line. */
  lemma ParseLineOfLine(p: Pair)
    requires '=' !in p.0
    requires !IsComment(LineOf(p))
    ensures ParseLine(LineOf(p)) == Some(p)
  {
    SplitN2Unique(p.0, p.1, '=');
  }

  function OptionToSeq(o: Option<Pair>): seq<Pair> {
    match o
    case None => []
    case Some(p) => [p]
  }

  /** The pairs of a sequence of lines, in line order. */
  function ParseLines(lines: seq<string>): (pairs: seq<Pair>)
    ensures |pairs| <= |lines|
    ensures forall j :: 0 <= j < |pairs| ==> '=' !in pairs[j].0
  {
    if |lines| == 0 then []
    else OptionToSeq(ParseLine(lines[0])) + ParseLines(lines[1..])
  }

  /** `ParseLines` distributes over concatenation of the line sequence. */
  lemma {:induction false} ParseLinesAppend(a: seq<string>, b: seq<string>)
    ensures ParseLines(a + b) == ParseLines(a) + ParseLines(b)
  {
    if |a| == 0 {
      assert a + b == b;
    } else {
      var ab, rest := a + b, a[1..];
      assert ab[0] == a[0];
      assert ab[1..] == rest + b;
      ParseLinesAppend(rest, b);
    }
  }

  /** Every pair of `ParseLines` is the parse of one of the lines, and every accepted line contributes its pair. */
  lemma {:induction false} ParseLinesSoundComplete(lines: seq<string>)
    ensures forall p :: p in ParseLines(lines) ==> LineOf(p) in lines && ParseLine(LineOf(p)) == Some(p)
    ensures forall j :: 0 <= j < |lines| && ParseLine(lines[j]).Some? ==> ParseLine(lines[j]).value in ParseLines(lines)
  {
    if |lines| > 0 {
      ParseLinesSoundComplete(lines[1..]);
      forall p | p in ParseLines(lines)
        ensures LineOf(p) in lines && ParseLine(LineOf(p)) == Some(p)
      {
        if p in ParseLines(lines[1..]) {
          assert LineOf(p) in lines[1..];
        } else {
          assert ParseLine(lines[0]) == Some(p);
          ParseLineOfLine(p);
        }
      }
      forall j | 0 <= j < |lines| && ParseLine(lines[j]).Some?
        ensures ParseLine(lines[j]).value in ParseLines(lines)
      {
        if j > 0 {
          assert lines[j] == lines[1..][j - 1];
        }
      }
    }
  }

  /** A character absent from every line is absent from every accepted pair. */
  lemma {:induction false} ParseLinesAvoid(lines: seq<string>, c: char)
    requires forall j :: 0 <= j < |lines| ==> c !in lines[j]
    ensures forall j :: 0 <= j < |ParseLines(lines)| ==> c !in LineOf(ParseLines(lines)[j])
  {
    if |lines| > 0 {
      ParseLinesAvoid(lines[1..], c);
      var head := OptionToSeq(ParseLine(lines[0]));
      assert ParseLines(lines) == head + ParseLines(lines[1..]);
    }
  }

  /**
   The whole file: split on "\n" only (a "\r" before it stays part of the
   line), then each line parsed on its own, in file order.
   */
  function Parse(content: string): (pairs: seq<Pair>)
    ensures forall j :: 0 <= j < |pairs| ==> '=' !in pairs[j].0 && '\n' !in LineOf(pairs[j])
  {
    var lines := Split(content, '\n');
    ParseLinesAvoid(lines, '\n');
    ParseLinesSoundComplete(lines);
    ParseLines(lines)
  }

  /** Parse accepts exactly the lines of the content that are neither comments nor free of `=`. */
  lemma ParseSoundComplete(content: string)
    ensures forall p :: p in Parse(content) ==> LineOf(p) in Split(content, '\n') && !IsComment(LineOf(p))
    ensures forall line :: line in Split(content, '\n') && !IsComment(line) && '=' in line ==> ParseLine(line).value in Parse(content)
  {
    var lines := Split(content, '\n');
    ParseLinesSoundComplete(lines);
    forall line | line in lines && !IsComment(line) && '=' in line
      ensures ParseLine(line).value in Parse(content)
    {
      var j :| 0 <= j < |lines| && lines[j] == line;
    }
  }

  /** A file of one line (no "\n") yields that line's pair, if any. */
  lemma {:induction false} ParseOneLine(line: string)
    requires '\n' !in line
    ensures Parse(line) == OptionToSeq(ParseLine(line))
  {
    assert Split(line, '\n') == [line];
    assert ParseLines([line]) == OptionToSeq(ParseLine(line)) + ParseLines([]);
  }

  /** A one-line file holding `k=v`, with `k` free of `=` and not starting with `#`, yields exactly that pair. */
  lemma OneLinePair(k: string, v: string)
    requires '=' !in k && '\n' !in k && '\n' !in v && !HasPrefix(k, '#')
    ensures Parse(k + "=" + v) == [(k, v)]
  {
    var line := k + "=" + v;
    assert '\n' !in line;
    assert IsComment(line) ==> HasPrefix(k, '#') by {
      if |k| == 0 {
        assert line[0] == '=';
      } else {
        assert line[0] == k[0];
      }
    }
    ParseOneLine(line);
    ParseLineOfLine((k, v));
  }

  /** A one-line file that is a comment, or has no `=`, yields nothing. */
  lemma OneLineSkipped(line: string)
    requires '\n' !in line && (IsComment(line) || '=' !in line)
    ensures Parse(line) == []
  {
    ParseOneLine(line);
  }

  /** Joining two files with a newline concatenates their pairs. */
  lemma {:induction false} ParseAppend(a: string, b: string)
    ensures Parse(a + "\n" + b) == Parse(a) + Parse(b)
  {
    SplitAppend(a, b, '\n');
    ParseLinesAppend(Split(a, '\n'), Split(b, '\n'));
  }

  /** The empty file, and the empty last line after a trailing newline, contribute no pair. */
  lemma {:induction false} ParseEmptyAndTrailingNewline(content: string)
    ensures Parse("") == []
    ensures Parse(content + "\n") == Parse(content)
  {
    ParseOneLine("");
    ParseAppend(content, "");
    assert content + "\n" + "" == content + "\n";
  }

  /** A well-formed list of pairs: each one written as its own line parses back to itself. */
  predicate Renderable(pairs: seq<Pair>) {
    forall j :: 0 <= j < |pairs| ==>
      '=' !in pairs[j].0 && '\n' !in LineOf(pairs[j]) && !IsComment(LineOf(pairs[j]))
  }

  /** The `.env` text holding the given pairs, one per line. */
  function Render(pairs: seq<Pair>): string {
    if |pairs| == 0 then ""
    else if |pairs| == 1 then LineOf(pairs[0])
    else LineOf(pairs[0]) + "\n" + Render(pairs[1..])
  }

  /** Round trip: parsing the rendering of well-formed pairs gives them back, in order. */
  lemma {:induction false} ParseRender(pairs: seq<Pair>)
    requires Renderable(pairs)
    ensures Parse(Render(pairs)) == pairs
  {
    if |pairs| == 0 {
      ParseEmptyAndTrailingNewline("");
    } else {
      ParseLineOfLine(pairs[0]);
      ParseOneLine(LineOf(pairs[0]));
      if |pairs| > 1 {
        ParseRender(pairs[1..]);
        ParseAppend(LineOf(pairs[0]), Render(pairs[1..]));
        assert pairs == [pairs[0]] + pairs[1..];
      }
    }
  }

  /** Writes the pairs into the environment one after another, each overwriting any earlier value. */
  function Apply(env: Env, pairs: seq<Pair>): (r: Env)
    ensures r.Keys == env.Keys + KeysOf(pairs)
    decreases |pairs|
  {
    if |pairs| == 0 then env
    else
      KeysOfCons(pairs);
      Apply(env[pairs[0].0 := pairs[0].1], pairs[1..])
  }

  /** The keys the pairs name. */
  function KeysOf(pairs: seq<Pair>): set<string> {
    set j | 0 <= j < |pairs| :: pairs[j].0
  }

  lemma KeysOfCons(pairs: seq<Pair>)
    requires |pairs| > 0
    ensures KeysOf(pairs) == {pairs[0].0} + KeysOf(pairs[1..])
  {
    var rest := pairs[1..];
    assert forall j :: 0 <= j < |rest| ==> rest[j] == pairs[j + 1];
    forall k | k in KeysOf(pairs)
      ensures k in {pairs[0].0} + KeysOf(rest)
    {
      var j :| 0 <= j < |pairs| && pairs[j].0 == k;
      if j > 0 {
        assert rest[j - 1].0 == k;
      }
    }
  }

  /** Reference definition: the value of the last pair naming `key`, looked up from the end. */
  function LastValue(pairs: seq<Pair>, key: string): Option<string>
  {
    if |pairs| == 0 then None
    else if pairs[|pairs| - 1].0 == key then Some(pairs[|pairs| - 1].1)
    else LastValue(pairs[..|pairs| - 1], key)
  }

  /** `LastValue` finds nothing exactly when no pair names the key. */
  lemma {:induction false} LastValueNone(pairs: seq<Pair>, key: string)
    ensures LastValue(pairs, key).None? <==> forall j :: 0 <= j < |pairs| ==> pairs[j].0 != key
  {
    if |pairs| > 0 {
      var init := pairs[..|pairs| - 1];
      LastValueNone(init, key);
      assert forall j :: 0 <= j < |init| ==> init[j] == pairs[j];
    }
  }

  lemma {:induction false} ApplyAppend(env: Env, a: seq<Pair>, b: seq<Pair>)
    ensures Apply(env, a + b) == Apply(Apply(env, a), b)
    decreases |a|
  {
    if |a| > 0 {
      var ab, rest, e := a + b, a[1..], env[a[0].0 := a[0].1];
      assert ab[0] == a[0] && ab[1..] == rest + b;
      assert Apply(env, ab) == Apply(e, rest + b);
      assert Apply(env, a) == Apply(e, rest);
      ApplyAppend(e, rest, b);
    } else {
      assert a + b == b;
    }
  }

  /**
   Last write wins, nothing else changes: after applying the pairs, a key
   named by some pair holds the value of the last such pair, whatever it held
   before, and every other key is exactly as it was in `env`.
   */
  lemma {:induction false} ApplyLastWins(env: Env, pairs: seq<Pair>, key: string)
    ensures key in Apply(env, pairs) <==> key in env || LastValue(pairs, key).Some?
    ensures LastValue(pairs, key).Some? ==> Apply(env, pairs)[key] == LastValue(pairs, key).value
    ensures LastValue(pairs, key).None? && key in env ==> Apply(env, pairs)[key] == env[key]
  {
    if |pairs| > 0 {
      var init := pairs[..|pairs| - 1];
      var last := pairs[|pairs| - 1];
      ApplyLastWins(env, init, key);
      ApplyAppend(env, init, [last]);
      assert init + [last] == pairs;
      assert Apply(Apply(env, init), [last]) == Apply(env, init)[last.0 := last.1];
    }
  }

  /** `ApplyLastWins` for every key at once. */
  lemma ApplyLastWinsAll(env: Env, pairs: seq<Pair>)
    ensures forall key :: key in Apply(env, pairs) <==> key in env || LastValue(pairs, key).Some?
    ensures forall key :: key in Apply(env, pairs) ==>
      Apply(env, pairs)[key] == (if LastValue(pairs, key).Some? then LastValue(pairs, key).value else env[key])
  {
    forall key | true
      ensures key in Apply(env, pairs) <==> key in env || LastValue(pairs, key).Some?
      ensures key in Apply(env, pairs) ==>
        Apply(env, pairs)[key] == (if LastValue(pairs, key).Some? then LastValue(pairs, key).value else env[key])
    {
      ApplyLastWins(env, pairs, key);
    }
  }

  /** Applying the same pairs a second time changes nothing. */
  lemma ApplyIdempotent(env: Env, pairs: seq<Pair>)
    ensures Apply(Apply(env, pairs), pairs) == Apply(env, pairs)
  {
    var once := Apply(env, pairs);
    ApplyLastWinsAll(env, pairs);
    ApplyLastWinsAll(once, pairs);
  }

  /**
   The loader. A missing file is success with the environment untouched; any
   other read failure is an error wrapping its cause, environment untouched;
   otherwise every accepted line is written into the environment in file order.
   */
  function DotEnv(env: Env, file: ReadResult): (r: (Outcome, Env))
    ensures r.0.Err? <==> file.ReadError?
    ensures r.0.Err? ==> r.0.cause == file.cause && r.0.Message() == ReadErrorPrefix + file.cause
    ensures !file.Content? ==> r.1 == env
    ensures file.Content? ==> forall key :: key in r.1 <==> key in env || LastValue(Parse(file.text), key).Some?
    ensures file.Content? ==> forall key :: key in r.1 ==>
      r.1[key] == (if LastValue(Parse(file.text), key).Some? then LastValue(Parse(file.text), key).value else env[key])
  {
    match file
    case NotExist => (Ok, env)
    case ReadError(cause) => (Err(cause), env)
    case Content(text) =>
      var pairs := Parse(text);
      ApplyLastWinsAll(env, pairs);
      (Ok, Apply(env, pairs))
  }

  /** Loading the same file twice leaves the environment as loading it once. */
  lemma DotEnvIdempotent(env: Env, file: ReadResult)
    ensures DotEnv(DotEnv(env, file).1, file) == DotEnv(env, file)
  {
    if file.Content? {
      ApplyIdempotent(env, Parse(file.text));
    }
  }

  /** One more line either leaves the environment alone or writes that line's pair on top. */
  lemma ApplyNextLine(env: Env, lines: seq<string>, line: string)
    ensures ParseLine(line).None? ==> Apply(env, ParseLines(lines + [line])) == Apply(env, ParseLines(lines))
    ensures ParseLine(line).Some? ==>
      var p := ParseLine(line).value;
      Apply(env, ParseLines(lines + [line])) == Apply(env, ParseLines(lines))[p.0 := p.1]
  {
    ParseLinesAppend(lines, [line]);
    assert ParseLines([line]) == OptionToSeq(ParseLine(line)) + ParseLines([]);
    ApplyAppend(env, ParseLines(lines), ParseLines([line]));
  }

  /**
   The body of the source's loop for one line: a comment or a line without
   `=` leaves the environment alone, any other line overwrites one variable.
   */
  method WriteLine(env: Env, line: string) returns (env': Env)
    ensures ParseLine(line).None? ==> env' == env
    ensures ParseLine(line).Some? ==> env' == env[ParseLine(line).value.0 := ParseLine(line).value.1]
  {
    if IsComment(line) {
      return env;
    }
    var parts := SplitN2(line, '=');
    if |parts| != 2 {
      return env;
    }
    return env[parts[0] := parts[1]];
  }

  lemma PrefixStep(lines: seq<string>, i: nat)
    requires i < |lines|
    ensures lines[..i + 1] == lines[..i] + [lines[i]]
  {
  }

  /** The source's loop over the lines of the file, one `WriteLine` per line, in order. */
  method WriteLines(env: Env, lines: seq<string>) returns (env': Env)
    ensures env' == Apply(env, ParseLines(lines))
  {
    env' := env;
    var i := 0;
    while i < |lines|
      invariant 0 <= i <= |lines|
      invariant env' == Apply(env, ParseLines(lines[..i]))
    {
      var line, done := lines[i], lines[..i];
      PrefixStep(lines, i);
      ApplyNextLine(env, done, line);
      env' := WriteLine(env', line);
      i := i + 1;
    }
    assert lines[..i] == lines;
  }

  /**
   The loader as the source writes it: read the file, stop on a read failure
   other than a missing file, and otherwise run the line loop over the
   "\n"-separated lines. It computes the same outcome and environment as
   `DotEnv`.
   */
  method LoadLines(env: Env, file: ReadResult) returns (outcome: Outcome, env': Env)
    ensures (outcome, env') == DotEnv(env, file)
  {
    match file {
      case NotExist =>
        return Ok, env;
      case ReadError(cause) =>
        return Err(cause), env;
      case Content(text) =>
        env' := WriteLines(env, Split(text, '\n'));
        return Ok, env';
    }
  }
}
