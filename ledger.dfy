/**
 * The hash ledger `file_hashes.txt`: one line `path|hash` per file.
 *
 * Loading reads the file in text mode (universal newlines), strips each line with
 * `str.strip()`, splits it at the first `|` and builds a dict from the pairs; a line
 * without `|` makes the whole load fail. Saving writes `path|hash\n` for each entry
 * of the new dict, in its insertion order.
 */
module Ledger {
  import opened Results
  import opened Dict

  /** An MD5 hex digest as `hexdigest()` returns it: 32 lower-case hexadecimal digits. */
  predicate IsHexDigest(s: string)
  {
    |s| == 32 && forall i :: 0 <= i < |s| ==> '0' <= s[i] <= '9' || 'a' <= s[i] <= 'f'
  }

  type HexDigest = s: string | IsHexDigest(s) witness "00000000000000000000000000000000"

  /** Why a ledger could not be loaded: element `index` of the lines had no `|`. */
  datatype LoadError = MalformedLine(index: nat)

  /** The characters for which Python's `str.isspace()` holds; `str.strip()` removes these. */
  predicate IsSpace(c: char)
  {
    || c == '\t' || c == '\n' || c == '\U{0B}' || c == '\U{0C}' || c == '\r'
    || ('\U{1C}' <= c <= '\U{1F}') || c == ' ' || c == '\U{85}' || c == '\U{A0}'
    || c == '\U{1680}' || ('\U{2000}' <= c <= '\U{200A}') || c == '\U{2028}' || c == '\U{2029}'
    || c == '\U{202F}' || c == '\U{205F}' || c == '\U{3000}'
  }

  function StripStart(s: string): string
  {
    if s != [] && IsSpace(s[0]) then StripStart(s[1..]) else s
  }

  function StripEnd(s: string): string
  {
    if s != [] && IsSpace(s[|s| - 1]) then StripEnd(s[..|s| - 1]) else s
  }

  /** `str.strip()`: `s` without its leading and trailing whitespace. */
  function Strip(s: string): string
  {
    StripEnd(StripStart(s))
  }

  /**
   * What `str.strip()` leaves: the slice of `s` that starts after its leading run
   * of whitespace and ends before its trailing run, so that it neither starts nor
   * ends with whitespace.
   */
  lemma StripTrims(s: string)
    ensures var a, r := |s| - |StripStart(s)|, Strip(s);
            && 0 <= a && a + |r| <= |s| && r == s[a..a + |r|]
            && (forall i :: 0 <= i < a ==> IsSpace(s[i]))
            && (forall i :: a + |r| <= i < |s| ==> IsSpace(s[i]))
            && (r == [] || (!IsSpace(r[0]) && !IsSpace(r[|r| - 1])))
  {
    var t := StripStart(s);
    StripStartIsSuffix(s);
    StripStartCut(s);
    NotSpaceAtStripStart(s);
    StripEndIsPrefix(t);
    StripEndCut(t);
    var a, r := |s| - |t|, StripEnd(t);
    assert r == s[a..a + |r|];
    assert forall i :: a + |r| <= i < |s| ==> s[i] == t[i - a];
  }

  /** Position of the first `c` in `s`, or `|s|` when there is none. */
  function FirstIndex(s: string, c: char): (i: nat)
    ensures i <= |s| && c !in s[..i]
    ensures i < |s| ==> s[i] == c
  {
    if s == [] then 0
    else if s[0] == c then 0
    else
      var j := FirstIndex(s[1..], c);
      assert s[..1 + j] == [s[0]] + s[1..][..j];
      1 + j
  }

  /** `s.split(sep, 1)`: `[s]` without a separator, else the parts before and after the first one. */
  function SplitAtFirst(s: string, sep: char): (parts: seq<string>)
    ensures 1 <= |parts| <= 2
    ensures |parts| == 1 <==> sep !in s
    ensures |parts| == 1 ==> parts[0] == s
    ensures |parts| == 2 ==> sep !in parts[0] && s == parts[0] + [sep] + parts[1]
  {
    var i := FirstIndex(s, sep);
    if i == |s| then
      assert s[..i] == s;
      [s]
    else
      assert s == s[..i] + [sep] + s[i + 1..];
      [s[..i], s[i + 1..]]
  }

  /** Text-mode reading with universal newlines: `\r\n` and a lone `\r` both read as `\n`. */
  function TranslateNewlines(s: string): (r: string)
    ensures '\r' !in r
    ensures '\r' !in s ==> r == s
    decreases |s|
  {
    if s == [] then []
    else if s[0] == '\r' then
      "\n" + TranslateNewlines(if |s| > 1 && s[1] == '\n' then s[2..] else s[1..])
    else
      var t := TranslateNewlines(s[1..]);
      assert '\r' !in s ==> s == [s[0]] + s[1..];
      [s[0]] + t
  }

  /**
   * The lines iterating over a text file yields: each line up to and including its
   * `\n`, and a last line without one when the text does not end in `\n`.
   */
  function Lines(text: string): seq<string>
    decreases |text|
  {
    if text == [] then []
    else
      var i := FirstIndex(text, '\n');
      if i == |text| then [text] else [text[..i + 1]] + Lines(text[i + 1..])
  }

  /**
   * The lines put back together are the text; no line is empty, a `\n` can only
   * be a line's last character, and every line but the last ends with one.
   */
  lemma {:induction false} LinesSplitText(text: string)
    ensures var ls := Lines(text);
            && Concat(ls) == text
            && (forall j :: 0 <= j < |ls| ==> ls[j] != [] && '\n' !in ls[j][..|ls[j]| - 1])
            && (forall j :: 0 <= j < |ls| - 1 ==> ls[j][|ls[j]| - 1] == '\n')
  {
    LinesJoin(text);
    LinesBreaks(text);
  }

  lemma {:induction false} LinesJoin(text: string)
    ensures Concat(Lines(text)) == text
    decreases |text|
  {
    if text != [] {
      var i := FirstIndex(text, '\n');
      if i == |text| {
        ConcatCons(text, []);
      } else {
        LinesStep(text, i);
        ConcatCons(text[..i + 1], Lines(text[i + 1..]));
        LinesJoin(text[i + 1..]);
        assert text[..i + 1] + text[i + 1..] == text;
      }
    }
  }

  /** The first line of `text`, when it ends at the line break at `i`, and the lines after it. */
  lemma LinesStep(text: string, i: nat)
    requires text != [] && i == FirstIndex(text, '\n') && i < |text|
    ensures Lines(text) == [text[..i + 1]] + Lines(text[i + 1..])
  {
  }

  lemma ConcatCons(line: string, rest: seq<string>)
    ensures Concat([line] + rest) == line + Concat(rest)
  {
    assert ([line] + rest)[0] == line && ([line] + rest)[1..] == rest;
  }

  lemma {:induction false} LinesBreaks(text: string)
    ensures forall j :: 0 <= j < |Lines(text)| ==> Lines(text)[j] != [] && '\n' !in Lines(text)[j][..|Lines(text)[j]| - 1]
    ensures forall j :: 0 <= j < |Lines(text)| - 1 ==> Lines(text)[j][|Lines(text)[j]| - 1] == '\n'
    decreases |text|
  {
    if text != [] {
      var i := FirstIndex(text, '\n');
      if i == |text| {
        assert text[..|text| - 1] == text[..i][..|text| - 1];
      } else {
        var first, rest := text[..i + 1], Lines(text[i + 1..]);
        var ls := Lines(text);
        assert ls == [first] + rest;
        LinesBreaks(text[i + 1..]);
        assert first[..|first| - 1] == text[..i] && first[|first| - 1] == '\n';
        forall j | 1 <= j < |ls|
          ensures ls[j] != [] && '\n' !in ls[j][..|ls[j]| - 1]
          ensures j < |ls| - 1 ==> ls[j][|ls[j]| - 1] == '\n'
        {
          assert ls[j] == rest[j - 1];
        }
      }
    }
  }

  /** The lines joined back together. */
  function Concat(lines: seq<string>): string
  {
    if lines == [] then [] else lines[0] + Concat(lines[1..])
  }

  /** One stripped ledger line split at its first `|`; `None` when it has no `|`. */
  function ParseLine(line: string): Option<Entry>
  {
    var parts := SplitAtFirst(Strip(line), '|');
    if |parts| == 2 then Some(Entry(parts[0], parts[1])) else None
  }

  /** A line is rejected exactly when it has no `|` once stripped. */
  lemma ParseLineNone()
    ensures forall line :: ParseLine(line).None? <==> '|' !in Strip(line)
  {
  }

  /** A line written for a safe entry parses back to that entry. */
  lemma ParseLineOf(e: Entry)
    requires SafeKey(e.key) && SafeValue(e.value)
    ensures ParseLine(LineOf(e)) == Some(e)
  {
    var body := e.key + "|" + e.value;
    StripLine(e.key, e.value);
    assert body[..|e.key|] == e.key && body[|e.key|] == '|';
    assert FirstIndex(body, '|') == |e.key|;
    assert body[|e.key| + 1..] == e.value;
  }

  /**
   * The pairs `dict()` receives from the lines; the first line without `|` stops the
   * load with its index.
   */
  function ParseLines(lines: seq<string>): Result<seq<Entry>, LoadError>
  {
    if lines == [] then Success([])
    else if ParseLine(lines[0]).None? then Failure(MalformedLine(0))
    else
      var rest := ParseLines(lines[1..]);
      if rest.Failure? then Failure(MalformedLine(rest.error.index + 1))
      else Success([ParseLine(lines[0]).value] + rest.value)
  }

  /** Parsing succeeds exactly when every line has a `|`, and then yields one pair per line. */
  lemma {:induction false} ParseLinesSucceeds(lines: seq<string>)
    ensures ParseLines(lines).Success? <==> forall j :: 0 <= j < |lines| ==> ParseLine(lines[j]).Some?
    ensures ParseLines(lines).Success? ==>
              |ParseLines(lines).value| == |lines| &&
              forall j :: 0 <= j < |lines| ==> ParseLine(lines[j]) == Some(ParseLines(lines).value[j])
  {
    ParseLinesOk(lines);
    ParseLinesPairs(lines);
  }

  lemma {:induction false} ParseLinesOk(lines: seq<string>)
    ensures ParseLines(lines).Success? <==> forall j :: 0 <= j < |lines| ==> ParseLine(lines[j]).Some?
  {
    if lines != [] {
      ParseLinesOk(lines[1..]);
      assert forall j :: 1 <= j < |lines| ==> lines[j] == lines[1..][j - 1];
    }
  }

  lemma {:induction false} ParseLinesPairs(lines: seq<string>)
    ensures ParseLines(lines).Success? ==>
              |ParseLines(lines).value| == |lines| &&
              forall j :: 0 <= j < |lines| ==> ParseLine(lines[j]) == Some(ParseLines(lines).value[j])
  {
    if lines != [] && ParseLines(lines).Success? {
      var rest := ParseLines(lines[1..]);
      ParseLinesPairs(lines[1..]);
      var es := ParseLines(lines).value;
      assert es == [ParseLine(lines[0]).value] + rest.value;
      forall j | 1 <= j < |lines|
        ensures ParseLine(lines[j]) == Some(es[j])
      {
        assert lines[j] == lines[1..][j - 1] && es[j] == rest.value[j - 1];
      }
    }
  }

  /** A failed parse names the first line without `|`. */
  lemma {:induction false} ParseLinesFails(lines: seq<string>)
    ensures ParseLines(lines).Failure? ==>
              var n := ParseLines(lines).error.index;
              n < |lines| && ParseLine(lines[n]).None? &&
              forall j :: 0 <= j < n ==> ParseLine(lines[j]).Some?
  {
    if lines != [] && ParseLine(lines[0]).Some? {
      ParseLinesFails(lines[1..]);
      assert forall j :: 1 <= j < |lines| ==> lines[j] == lines[1..][j - 1];
    }
  }

  /**
   * Loading the ledger: a missing file is an empty ledger; otherwise the pairs of
   * all lines are gathered into a mapping.
   */
  function LoadLedger(file: Option<string>): (r: Result<map<string, string>, LoadError>)
    ensures file.None? ==> r == Success(map[])
  {
    match file
    case None => Success(map[])
    case Some(text) =>
      match ParseLines(Lines(TranslateNewlines(text)))
      case Failure(err) => Failure(err)
      case Success(es) => Success(ToMap(es))
  }

  /**
   * Loading an existing ledger fails exactly when some line has no `|` after
   * stripping, and the error names the first such line.
   */
  lemma LoadFailsOnLineWithoutBar(text: string)
    ensures var lines := Lines(TranslateNewlines(text));
            var r := LoadLedger(Some(text));
            && (r.Failure? <==> exists j :: 0 <= j < |lines| && '|' !in Strip(lines[j]))
            && (r.Failure? ==> r.error.index < |lines| && '|' !in Strip(lines[r.error.index]) &&
                               forall j :: 0 <= j < r.error.index ==> '|' in Strip(lines[j]))
  {
    var lines := Lines(TranslateNewlines(text));
    ParseLinesSucceeds(lines);
    ParseLinesFails(lines);
    ParseLineNone();
    if LoadLedger(Some(text)).Failure? {
      var j :| 0 <= j < |lines| && ParseLine(lines[j]).None?;
      assert '|' !in Strip(lines[j]);
    }
  }

  /**
   * A ledger that loads binds the key of each line to the value of the last line
   * with that key.
   */
  lemma LoadLaterLineWins(text: string, i: nat)
    requires LoadLedger(Some(text)).Success?
    requires var lines := Lines(TranslateNewlines(text));
             && i < |lines| && ParseLine(lines[i]).Some?
             && forall j :: i < j < |lines| && ParseLine(lines[j]).Some? ==>
                  ParseLine(lines[j]).value.key != ParseLine(lines[i]).value.key
    ensures var lines := Lines(TranslateNewlines(text));
            var e := ParseLine(lines[i]).value;
            e.key in LoadLedger(Some(text)).value && LoadLedger(Some(text)).value[e.key] == e.value
  {
    var lines := Lines(TranslateNewlines(text));
    ParseLinesSucceeds(lines);
    var es := ParseLines(lines).value;
    ToMapLastWins(es, i);
  }

  /** The line saving writes for one entry. */
  function LineOf(e: Entry): string
  {
    e.key + "|" + e.value + "\n"
  }

  /** The whole text saving writes: the entries' lines in order. */
  function Serialize(es: seq<Entry>): string
  {
    if es == [] then "" else LineOf(es[0]) + Serialize(es[1..])
  }

  lemma {:induction false} SerializeSnoc(es: seq<Entry>, e: Entry)
    ensures Serialize(es + [e]) == Serialize(es) + LineOf(e)
  {
    if es == [] {
      assert es + [e] == [e];
      assert [e][1..] == [];
    } else {
      assert (es + [e])[1..] == es[1..] + [e];
      SerializeSnoc(es[1..], e);
    }
  }

  /** Rewriting the ledger: one `path|hash\n` write per entry, in the dict's order. */
  method SaveLedger(entries: seq<Entry>) returns (text: string)
    ensures text == Serialize(entries)
  {
    text := "";
    for i := 0 to |entries|
      invariant text == Serialize(entries[..i])
    {
      var e := entries[i];
      text := text + e.key + "|" + e.value + "\n";
      assert entries[..i + 1] == entries[..i] + [e];
      SerializeSnoc(entries[..i], e);
    }
    assert entries[..|entries|] == entries;
  }

  /** A path that survives a save and a load unchanged. */
  predicate SafeKey(k: string)
  {
    '\n' !in k && '\r' !in k && '|' !in k && (k == [] || !IsSpace(k[0]))
  }

  /** A hash value that survives a save and a load unchanged. */
  predicate SafeValue(v: string)
  {
    '\n' !in v && '\r' !in v && NoTrailingSpace(v)
  }

  predicate NoTrailingSpace(v: string)
  {
    v == [] || !IsSpace(v[|v| - 1])
  }

  /** Every MD5 hex digest is a safe value. */
  lemma HexDigestIsSafe(d: HexDigest)
    ensures SafeValue(d) && '|' !in d
  {
    assert forall i :: 0 <= i < |d| ==> d[i] != '\n' && d[i] != '\r' && d[i] != '|' && !IsSpace(d[i]);
  }

  predicate SafeEntries(es: seq<Entry>)
  {
    forall i :: 0 <= i < |es| ==> SafeKey(es[i].key) && SafeValue(es[i].value)
  }

  /** Loading the text saved for a single entry. */
  function LoadOne(k: string, v: string): Result<map<string, string>, LoadError>
  {
    LoadLedger(Some(Serialize([Entry(k, v)])))
  }

  lemma SerializeOne(k: string, v: string)
    ensures Serialize([Entry(k, v)]) == k + "|" + v + "\n"
  {
    assert [Entry(k, v)][1..] == [];
  }

  lemma StripLine(k: string, v: string)
    requires k == [] || !IsSpace(k[0])
    requires NoTrailingSpace(v)
    ensures StripStart(k + "|" + v + "\n") == k + "|" + v + "\n"
    ensures StripEnd(k + "|" + v + "\n") == k + "|" + v
    ensures Strip(k + "|" + v + "\n") == k + "|" + v
  {
    var body := k + "|" + v;
    assert body + "\n" != [] && (body + "\n")[0] == body[0];
    assert StripStart(body + "\n") == body + "\n";
    assert (body + "\n")[..|body|] == body;
    assert StripEnd(body) == body by {
      assert body[|body| - 1] == if v == [] then '|' else v[|v| - 1];
    }
  }

  /** No line break inside any key or value: the saved text has exactly one line per entry. */
  predicate OneLineEach(es: seq<Entry>)
  {
    forall i :: 0 <= i < |es| ==> '\n' !in es[i].key && '\n' !in es[i].value
  }

  predicate NoCarriageReturns(es: seq<Entry>)
  {
    forall i :: 0 <= i < |es| ==> '\r' !in es[i].key && '\r' !in es[i].value
  }

  lemma {:induction false} LinesOfSerialize(es: seq<Entry>)
    requires OneLineEach(es)
    ensures |Lines(Serialize(es))| == |es|
    ensures forall i :: 0 <= i < |es| ==> Lines(Serialize(es))[i] == LineOf(es[i])
  {
    if es != [] {
      assert OneLineEach(es[1..]) by {
        forall i | 0 <= i < |es[1..]| ensures '\n' !in es[1..][i].key && '\n' !in es[1..][i].value {
          assert es[1..][i] == es[i + 1];
        }
      }
      LinesOfSerialize(es[1..]);
      var ls := Lines(Serialize(es));
      assert ls == [LineOf(es[0])] + Lines(Serialize(es[1..])) by {
        LineOfIsOneLine(es[0]);
        LinesCons(LineOf(es[0]), Serialize(es[1..]));
      }
      forall i | 0 < i < |es| ensures ls[i] == LineOf(es[i]) {
        assert ls[i] == Lines(Serialize(es[1..]))[i - 1];
        assert es[i] == es[1..][i - 1];
      }
    }
  }

  lemma LineOfIsOneLine(e: Entry)
    requires '\n' !in e.key && '\n' !in e.value
    ensures var line := LineOf(e); line[|line| - 1] == '\n' && '\n' !in line[..|line| - 1]
  {
    var line := LineOf(e);
    assert line[..|line| - 1] == e.key + "|" + e.value;
  }

  /** A text that starts with a complete line yields that line first. */
  lemma LinesCons(line: string, rest: string)
    requires line != [] && line[|line| - 1] == '\n' && '\n' !in line[..|line| - 1]
    ensures Lines(line + rest) == [line] + Lines(rest)
  {
    var text := line + rest;
    var n := |line| - 1;
    assert text[n] == '\n' && text[..n] == line[..n];
    assert FirstIndex(text, '\n') == n;
    assert text[..n + 1] == line && text[n + 1..] == rest;
  }

  lemma {:induction false} NoCarriageReturn(es: seq<Entry>)
    requires NoCarriageReturns(es)
    ensures '\r' !in Serialize(es)
  {
    if es != [] {
      NoCarriageReturn(es[1..]);
    }
  }

  /** Stripping only removes characters. */
  lemma {:induction false} StripKeepsCharacters(s: string)
    ensures forall c :: c in Strip(s) ==> c in s
  {
    StripStartIsSuffix(s);
    StripEndIsPrefix(StripStart(s));
  }

  lemma {:induction false} StripStartIsSuffix(s: string)
    ensures |StripStart(s)| <= |s| && StripStart(s) == s[|s| - |StripStart(s)|..]
  {
    if s != [] && IsSpace(s[0]) {
      StripStartIsSuffix(s[1..]);
    }
  }

  lemma {:induction false} StripEndIsPrefix(s: string)
    ensures |StripEnd(s)| <= |s| && StripEnd(s) == s[..|StripEnd(s)|]
  {
    if s != [] && IsSpace(s[|s| - 1]) {
      StripEndIsPrefix(s[..|s| - 1]);
    }
  }

  lemma {:induction false} StripStartAppend(k: string, rest: string)
    requires rest != [] && !IsSpace(rest[0])
    ensures StripStart(k + rest) == StripStart(k) + rest
  {
    if k == [] {
      assert k + rest == rest;
    } else if IsSpace(k[0]) {
      assert (k + rest)[1..] == k[1..] + rest;
      StripStartAppend(k[1..], rest);
    } else {
      assert (k + rest)[0] == k[0];
    }
  }

  /**
   * Save-then-load round trip: when no path holds `|`, a line break or leading
   * whitespace and no hash holds a line break or trailing whitespace, loading the
   * saved text gives back exactly the mapping the entries denote.
   */
  lemma RoundTrip(es: seq<Entry>)
    requires SafeEntries(es)
    ensures LoadLedger(Some(Serialize(es))) == Success(ToMap(es))
  {
    NoCarriageReturn(es);
    LinesOfSerialize(es);
    var lines := Lines(Serialize(es));
    forall j | 0 <= j < |es| ensures ParseLine(lines[j]) == Some(es[j]) {
      ParseLineOf(es[j]);
    }
    ParseLinesSucceeds(lines);
    var r := ParseLines(lines);
    assert r.Success?;
    assert r.value == es;
  }

  /** The load of a single saved entry is decided by how its one line parses. */
  lemma LoadOneLine(k: string, v: string, e: Entry)
    requires '\n' !in k && '\n' !in v && '\r' !in k && '\r' !in v
    requires ParseLine(LineOf(Entry(k, v))) == Some(e)
    ensures LoadOne(k, v) == Success(map[e.key := e.value])
  {
    var es := [Entry(k, v)];
    SerializeOne(k, v);
    NoCarriageReturn(es);
    LinesOfSerialize(es);
    var lines := Lines(Serialize(es));
    assert lines == [LineOf(Entry(k, v))];
    assert ParseLines(lines[1..]) == Success([]);
    assert [e] + [] == [e];
    assert ParseLines(lines) == Success([e]);
    assert ToMap([e]) == map[e.key := e.value] by { assert [e][1..] == []; }
  }

  /**
   * A path `a|b` holding `|` is cut at its first `|` on loading: the loaded key is
   * `a` and the rest of the path moves into the value, so the path itself is never
   * found in the loaded ledger.
   */
  lemma PipeInPathSplitsEarly(a: string, b: string, v: string)
    requires '|' !in a && (a == [] || !IsSpace(a[0]))
    requires '\n' !in a + b && '\r' !in a + b && SafeValue(v)
    ensures LoadOne(a + "|" + b, v) == Success(map[a := b + "|" + v])
    ensures a + "|" + b !in LoadOne(a + "|" + b, v).value
  {
    PipeLineParse(a, b, v);
    assert '\n' !in a + "|" + b && '\r' !in a + "|" + b by {
      assert forall c :: c in a + "|" + b ==> c in a + b || c == '|';
    }
    LoadOneLine(a + "|" + b, v, Entry(a, b + "|" + v));
    assert |a + "|" + b| > |a|;
  }

  lemma PipeLineParse(a: string, b: string, v: string)
    requires '|' !in a && (a == [] || !IsSpace(a[0]))
    requires NoTrailingSpace(v)
    ensures ParseLine(LineOf(Entry(a + "|" + b, v))) == Some(Entry(a, b + "|" + v))
  {
    var value := b + "|" + v;
    var body := a + "|" + value;
    assert LineOf(Entry(a + "|" + b, v)) == body + "\n";
    assert !IsSpace(body[0]) by { assert body[0] == if a == [] then '|' else a[0]; }
    assert !IsSpace(body[|body| - 1]) by { assert body[|body| - 1] == if v == [] then '|' else v[|v| - 1]; }
    StripOfLine(LineOf(Entry(a + "|" + b, v)), body);
    ParseLineSplit(LineOf(Entry(a + "|" + b, v)), a, value);
  }

  /** Stripping a line removes just its `\n` when its text neither starts nor ends with whitespace. */
  lemma StripOfLine(line: string, body: string)
    requires line == body + "\n" && body != [] && !IsSpace(body[0]) && !IsSpace(body[|body| - 1])
    ensures Strip(line) == body
  {
    assert line[0] == body[0];
    assert StripStart(line) == line;
    assert line[..|line| - 1] == body;
    assert StripEnd(line) == StripEnd(body);
  }

  lemma SplitAtIndex(s: string, sep: char, i: nat)
    requires i < |s| && s[i] == sep && sep !in s[..i]
    ensures SplitAtFirst(s, sep) == [s[..i], s[i + 1..]]
  {
  }

  /** A line whose stripped text is `key|value` with no `|` in `key` parses to that pair. */
  lemma ParseLineSplit(line: string, key: string, value: string)
    requires Strip(line) == key + "|" + value && '|' !in key
    ensures ParseLine(line) == Some(Entry(key, value))
  {
    var body := key + "|" + value;
    assert body[..|key|] == key && body[|key|] == '|';
    SplitAtIndex(body, '|', |key|);
    assert body[|key| + 1..] == value;
  }

  /**
   * A path `a` + line break + `b` splits its ledger line in two; when `a` has no
   * `|`, a ledger saved with only this entry fails to load on line 0.
   */
  lemma LineBreakInPathFailsLoad(a: string, b: string, v: string)
    requires '\n' !in a && '|' !in a
    requires '\r' !in a && '\r' !in b && '\r' !in v
    ensures LoadOne(a + "\n" + b, v) == Failure(MalformedLine(0))
  {
    var k := a + "\n" + b;
    SerializeOne(k, v);
    var first := a + "\n";
    var rest := b + "|" + v + "\n";
    var text := first + rest;
    assert k + "|" + v + "\n" == text;
    assert '\r' !in text by {
      assert forall c :: c in text ==> c in a || c in b || c in v || c == '\n' || c == '|';
    }
    assert first[..|first| - 1] == a;
    LinesCons(first, rest);
    assert '|' !in Strip(first) by { StripKeepsCharacters(first); }
    assert ParseLine(first).None?;
  }

  /**
   * A path with leading whitespace comes back without it, so the stored path is
   * never found again under its own name.
   */
  lemma LeadingSpaceIsDropped(k: string, v: string)
    requires k != [] && IsSpace(k[0])
    requires '\n' !in k && '\r' !in k && '|' !in k
    requires SafeValue(v)
    ensures StripStart(k) != k
    ensures LoadOne(k, v) == Success(map[StripStart(k) := v])
  {
    LeadingSpaceLineParse(k, v);
    LoadOneLine(k, v, Entry(StripStart(k), v));
  }

  lemma LeadingSpaceLineParse(k: string, v: string)
    requires k != [] && IsSpace(k[0]) && '|' !in k
    requires NoTrailingSpace(v)
    ensures StripStart(k) != k
    ensures ParseLine(LineOf(Entry(k, v))) == Some(Entry(StripStart(k), v))
  {
    var k' := StripStart(k);
    StripStartIsSuffix(k);
    NotSpaceAtStripStart(k);
    LeadingSpaceLineStrip(k, v);
    assert '|' !in k' by { assert forall c :: c in k' ==> c in k; }
    var body := k' + "|" + v;
    assert body[..|k'|] == k' && body[|k'|] == '|';
    assert FirstIndex(body, '|') == |k'|;
    assert body[|k'| + 1..] == v;
  }

  lemma LeadingSpaceLineStrip(k: string, v: string)
    requires NoTrailingSpace(v)
    ensures Strip(k + "|" + v + "\n") == StripStart(k) + "|" + v
  {
    LeadingSpaceLineStart(k, v);
    NotSpaceAtStripStart(k);
    StripLine(StripStart(k), v);
  }

  lemma LeadingSpaceLineStart(k: string, v: string)
    ensures StripStart(k + "|" + v + "\n") == StripStart(k) + "|" + v + "\n"
  {
    var tail := "|" + v + "\n";
    assert k + "|" + v + "\n" == k + tail && tail[0] == '|';
    StripStartAppend(k, tail);
    assert StripStart(k) + tail == StripStart(k) + "|" + v + "\n";
  }

  lemma {:induction false} NotSpaceAtStripStart(s: string)
    ensures StripStart(s) == [] || !IsSpace(StripStart(s)[0])
  {
    if s != [] && IsSpace(s[0]) {
      NotSpaceAtStripStart(s[1..]);
    }
  }

  lemma {:induction false} StripStartCut(s: string)
    ensures forall i :: 0 <= i < |s| - |StripStart(s)| ==> IsSpace(s[i])
  {
    if s != [] && IsSpace(s[0]) {
      StripStartCut(s[1..]);
      StripStartIsSuffix(s[1..]);
    }
  }

  lemma {:induction false} StripEndCut(s: string)
    ensures forall i :: |StripEnd(s)| <= i < |s| ==> IsSpace(s[i])
    ensures StripEnd(s) == [] || !IsSpace(StripEnd(s)[|StripEnd(s)| - 1])
  {
    if s != [] && IsSpace(s[|s| - 1]) {
      StripEndCut(s[..|s| - 1]);
      StripEndIsPrefix(s[..|s| - 1]);
    }
  }
}
