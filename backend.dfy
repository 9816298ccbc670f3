/**
 * The text shaping of the Flask backend (backend/app.py): the word limit
 * on the generator's output, the extraction of the JSON object from it, and
 * the per-field length limits the three content endpoints apply.
 *
 * The `q` command-line generator, `json.loads` and Flask are oracles: a
 * handler receives `run`, the outcome of running the generator on a prompt
 * with a token budget, and `parse`, the outcome of decoding a text as JSON.
 */
module Backend {
  import opened Optional
  import opened Strings

  // ---------------------------------------------------------------------------
  // Words, as `str.split()` without arguments finds them

  predicate IsWord(w: string) {
    w != [] && forall i :: 0 <= i < |w| ==> !IsPySpace(w[i])
  }

  /** The length of the run of non-space characters at the front of `s`. */
  function WordLength(s: string): (n: nat)
    ensures n <= |s|
    ensures s != [] && !IsPySpace(s[0]) ==> n > 0
    decreases |s|
  {
    if s == [] || IsPySpace(s[0]) then 0 else 1 + WordLength(s[1..])
  }

  /** `WordLength` measures a maximal run: no space inside it, a space or the end after it. */
  lemma {:induction false} WordLengthIsRun(s: string)
    ensures forall i :: 0 <= i < WordLength(s) ==> !IsPySpace(s[i])
    ensures WordLength(s) == |s| || IsPySpace(s[WordLength(s)])
    decreases |s|
  {
    if s != [] && !IsPySpace(s[0]) {
      WordLengthIsRun(s[1..]);
      forall i | 0 < i < WordLength(s)
        ensures !IsPySpace(s[i])
      {
        assert s[i] == s[1..][i - 1];
      }
    }
  }

  /** `s.split()`: the maximal runs of non-space characters, in order. */
  function Words(s: string): (ws: seq<string>)
    ensures 2 * |ws| <= |s| + 1
    decreases |s|
  {
    if s == [] then []
    else if IsPySpace(s[0]) then Words(s[1..])
    else
      var n := WordLength(s);
      WordLengthIsRun(s);
      assert n < |s| ==> Words(s[n..]) == Words(s[n + 1..]) by {
        if n < |s| {
          assert s[n..][1..] == s[n + 1..];
        }
      }
      [s[..n]] + Words(s[n..])
  }

  /** Every word is non-empty and free of whitespace. */
  lemma {:induction false} WordsAreWords(s: string)
    ensures forall i :: 0 <= i < |Words(s)| ==> IsWord(Words(s)[i])
    decreases |s|
  {
    if s != [] && IsPySpace(s[0]) {
      WordsAreWords(s[1..]);
    } else if s != [] {
      var n := WordLength(s);
      var first, rest := s[..n], Words(s[n..]);
      WordsAreWords(s[n..]);
      WordLengthIsRun(s);
      assert IsWord(first) by {
        forall i | 0 <= i < |first|
          ensures !IsPySpace(first[i])
        {
          assert first[i] == s[i];
        }
      }
      var ws := Words(s);
      assert ws == [first] + rest;
      forall i | 0 <= i < |ws|
        ensures IsWord(ws[i])
      {
        if i > 0 {
          assert ws[i] == rest[i - 1];
        }
      }
    }
  }

  lemma WordsLeadingSpace(c: char, s: string)
    requires IsPySpace(c)
    ensures Words([c] + s) == Words(s)
  {
    assert ([c] + s)[0] == c;
    assert ([c] + s)[1..] == s;
  }

  lemma {:induction false} WordLengthOfWord(w: string, rest: string)
    requires forall i :: 0 <= i < |w| ==> !IsPySpace(w[i])
    requires rest == [] || IsPySpace(rest[0])
    ensures WordLength(w + rest) == |w|
    decreases |w|
  {
    if w == [] {
      assert w + rest == rest;
    } else {
      assert (w + rest)[0] == w[0];
      assert (w + rest)[1..] == w[1..] + rest;
      WordLengthOfWord(w[1..], rest);
    }
  }

  /** The first word of `w + rest` is `w` when `rest` is empty or starts with a space. */
  lemma WordsCons(w: string, rest: string)
    requires IsWord(w)
    requires rest == [] || IsPySpace(rest[0])
    ensures Words(w + rest) == [w] + Words(rest)
  {
    var s := w + rest;
    assert s[0] == w[0];
    WordLengthOfWord(w, rest);
    assert s[..|w|] == w && s[|w|..] == rest;
  }

  /** A word followed by a space and more words splits into that word and the words after it. */
  lemma WordsOfJoinCons(ws: seq<string>)
    requires |ws| > 1 && IsWord(ws[0])
    ensures Words(Join(ws, " ")) == [ws[0]] + Words(Join(ws[1..], " "))
  {
    var rest := Join(ws[1..], " ");
    assert Join(ws, " ") == ws[0] + ([' '] + rest);
    WordsCons(ws[0], [' '] + rest);
    WordsLeadingSpace(' ', rest);
  }

  /** Joining words with single spaces and splitting again gives the words back. */
  lemma {:induction false} WordsOfJoin(ws: seq<string>)
    requires forall i :: 0 <= i < |ws| ==> IsWord(ws[i])
    ensures Words(Join(ws, " ")) == ws
    decreases |ws|
  {
    if |ws| == 1 {
      WordsOfOneWord(ws);
    } else if |ws| > 1 {
      TailAreWords(ws);
      WordsOfJoin(ws[1..]);
      WordsOfJoinStep(ws);
    }
  }

  lemma WordsOfOneWord(ws: seq<string>)
    requires |ws| == 1 && IsWord(ws[0])
    ensures Words(Join(ws, " ")) == ws
  {
    var w := ws[0];
    calc {
      Words(Join(ws, " "));
      Words(w);
      { assert w + [] == w; }
      Words(w + []);
      { WordsCons(w, []); }
      [w] + Words([]);
      [w];
      ws;
    }
  }

  lemma TailAreWords(ws: seq<string>)
    requires |ws| > 0
    requires forall i :: 0 <= i < |ws| ==> IsWord(ws[i])
    ensures forall i :: 0 <= i < |ws[1..]| ==> IsWord(ws[1..][i])
  {
    forall i | 0 <= i < |ws[1..]|
      ensures IsWord(ws[1..][i])
    {
      assert ws[1..][i] == ws[i + 1];
    }
  }

  /** One word more in front: the inductive step of `WordsOfJoin`. */
  lemma WordsOfJoinStep(ws: seq<string>)
    requires |ws| > 1 && IsWord(ws[0])
    requires Words(Join(ws[1..], " ")) == ws[1..]
    ensures Words(Join(ws, " ")) == ws
  {
    WordsOfJoinCons(ws);
    assert ws == [ws[0]] + ws[1..];
  }

  /**
   * The word limit of `generate_with_amazon_q`: more than 1.5 times
   * `maxTokens` words (compared here as 2 x words > 3 x maxTokens, which is
   * the same test on integers) keeps only the first `maxTokens` words,
   * joined by single spaces, followed by "...".
   */
  function LimitWords(content: string, maxTokens: nat): (r: string)
    ensures r == content || (|r| >= 3 && r[|r| - 3..] == "...")
  {
    var ws := Words(content);
    if 2 * |ws| > 3 * maxTokens then Join(ws[..maxTokens], " ") + "..." else content
  }

  /** The first m words with "..." attached to the last are still words. */
  lemma MarkedAreWords(ws: seq<string>, m: nat)
    requires 0 < m <= |ws|
    requires forall i :: 0 <= i < |ws| ==> IsWord(ws[i])
    ensures var marked := ws[..m - 1] + [ws[m - 1] + "..."];
            forall i :: 0 <= i < |marked| ==> IsWord(marked[i])
  {
    var w := ws[m - 1];
    var last := w + "...";
    assert IsWord(w);
    forall i | 0 <= i < |last|
      ensures !IsPySpace(last[i])
    {
      if i < |w| {
        assert last[i] == w[i];
      } else {
        assert last[i] == '.';
      }
    }
    var marked := ws[..m - 1] + [last];
    forall i | 0 <= i < |marked|
      ensures IsWord(marked[i])
    {
      if i < m - 1 {
        assert marked[i] == ws[i];
      }
    }
  }

  /** A cut text is the first m words joined by spaces, "..." attached to the last. */
  lemma CutText(content: string, m: nat)
    requires 0 < m && 2 * |Words(content)| > 3 * m
    ensures var ws := Words(content);
            LimitWords(content, m) == Join(ws[..m - 1] + [ws[m - 1] + "..."], " ")
  {
    var ws := Words(content);
    var kept := ws[..m];
    assert kept[..m - 1] == ws[..m - 1];
    assert kept[m - 1] == ws[m - 1];
    JoinAppend(kept, " ", "...");
  }

  /**
   * With a positive budget, the limited text never has more than 1.5 times
   * `maxTokens` words. When it was cut, it has exactly `maxTokens` words:
   * the original first ones, the last with "..." attached.
   */
  lemma LimitWordsBound(content: string, maxTokens: nat)
    requires maxTokens > 0
    ensures 2 * |Words(LimitWords(content, maxTokens))| <= 3 * maxTokens
    ensures var ws := Words(content);
            2 * |ws| > 3 * maxTokens ==>
              Words(LimitWords(content, maxTokens)) == ws[..maxTokens - 1] + [ws[maxTokens - 1] + "..."]
    ensures var ws := Words(content);
            2 * |ws| <= 3 * maxTokens ==> LimitWords(content, maxTokens) == content
  {
    var ws := Words(content);
    if 2 * |ws| > 3 * maxTokens {
      WordsAreWords(content);
      var marked := ws[..maxTokens - 1] + [ws[maxTokens - 1] + "..."];
      MarkedAreWords(ws, maxTokens);
      WordsOfJoin(marked);
      CutText(content, maxTokens);
      assert |marked| == maxTokens;
    }
  }

  // ---------------------------------------------------------------------------
  // The generator

  /** How a run of the generator ended. */
  datatype RunOutcome =
    | Completed(returnCode: int, stdout: string, stderr: string)
    | TimedOut
    | Raised(message: string)

  /** The dictionary `generate_with_amazon_q` returns: `{"content": ...}` or `{"error": ..., ["details": ...]}`. */
  datatype Generated = Content(text: string) | Failed(error: string, details: Option<string>)

  const GeneratorFailed: string := "Amazon Q failed to generate content"
  const GeneratorTimedOut: string := "Request to Amazon Q timed out"
  const GeneratorErrorPrefix: string := "Error generating content: "

  /** `generate_with_amazon_q` after the generator ran with outcome `outcome`. */
  function GenerateWithAmazonQ(outcome: RunOutcome, maxTokens: nat): (g: Generated)
    ensures outcome.Completed? && outcome.returnCode != 0 ==> g == Failed(GeneratorFailed, Some(outcome.stderr))
    ensures outcome.TimedOut? ==> g == Failed(GeneratorTimedOut, None)
    ensures outcome.Raised? ==> g == Failed(GeneratorErrorPrefix + outcome.message, None)
    ensures g.Content? <==> outcome.Completed? && outcome.returnCode == 0
  {
    match outcome
    case Completed(code, out, err) =>
      if code != 0 then Failed(GeneratorFailed, Some(err))
      else Content(LimitWords(Trim(out, IsPySpace), maxTokens))
    case TimedOut => Failed(GeneratorTimedOut, None)
    case Raised(message) => Failed(GeneratorErrorPrefix + message, None)
  }

  /** Successful content is the stripped output, cut to the word budget. */
  lemma GeneratedContentBound(outcome: RunOutcome, maxTokens: nat)
    requires maxTokens > 0
    requires GenerateWithAmazonQ(outcome, maxTokens).Content?
    ensures var text := GenerateWithAmazonQ(outcome, maxTokens).text;
            2 * |Words(text)| <= 3 * maxTokens
            && (2 * |Words(Trim(outcome.stdout, IsPySpace))| <= 3 * maxTokens ==>
                  text == Trim(outcome.stdout, IsPySpace))
  {
    LimitWordsBound(Trim(outcome.stdout, IsPySpace), maxTokens);
  }

  // ---------------------------------------------------------------------------
  // The JSON object in the generated text

  /** `s.find(c)`: the first index of `c`, or -1. */
  function Find(s: string, c: char): (i: int)
    ensures -1 <= i < |s|
    ensures i == -1 <==> c !in s
    ensures i >= 0 ==> s[i] == c && forall j :: 0 <= j < i ==> s[j] != c
    decreases |s|
  {
    if s == [] then -1
    else if s[0] == c then 0
    else
      var k := Find(s[1..], c);
      if k == -1 then -1 else k + 1
  }

  /** `s.rfind(c)`: the last index of `c`, or -1. */
  function RFind(s: string, c: char): (i: int)
    ensures -1 <= i < |s|
    ensures i == -1 <==> c !in s
    ensures i >= 0 ==> s[i] == c && forall j :: i < j < |s| ==> s[j] != c
    decreases |s|
  {
    if s == [] then -1
    else if s[|s| - 1] == c then |s| - 1
    else
      assert forall x :: x in s[..|s| - 1] ==> x in s;
      RFind(s[..|s| - 1], c)
  }

  /** The text from the first `{` to the last `}`, when there is a `}` after the first `{`. */
  function JsonSpan(content: string): (span: Option<string>)
    ensures span.Some? ==> |span.value| >= 2 && span.value[0] == '{' && span.value[|span.value| - 1] == '}'
  {
    var start := Find(content, '{');
    var end := RFind(content, '}') + 1;
    if start >= 0 && end > start then Some(content[start..end]) else None
  }

  /** A span is found exactly when some `{` comes before some `}`. */
  lemma JsonSpanFound(content: string)
    ensures JsonSpan(content).Some? <==>
            exists i, j :: 0 <= i < j < |content| && content[i] == '{' && content[j] == '}'
  {
    var start := Find(content, '{');
    var last := RFind(content, '}');
    if JsonSpan(content).Some? {
      assert content[start] == '{' && content[last] == '}' && start < last;
    }
    if exists i, j :: 0 <= i < j < |content| && content[i] == '{' && content[j] == '}' {
      var i, j :| 0 <= i < j < |content| && content[i] == '{' && content[j] == '}';
      assert start <= i && j <= last;
    }
  }

  /** A found span reaches from the first `{` to the last `}`: no `{` comes before it and no `}` after it. */
  lemma JsonSpanIsFirstToLast(content: string)
    requires JsonSpan(content).Some?
    ensures exists i, j :: 0 <= i < j < |content| && content[i] == '{' && content[j] == '}'
                        && JsonSpan(content).value == content[i..j + 1]
                        && (forall k :: 0 <= k < i ==> content[k] != '{')
                        && (forall k :: j < k < |content| ==> content[k] != '}')
  {
    var start := Find(content, '{');
    var last := RFind(content, '}');
    assert 0 <= start < last < |content| && content[start] == '{' && content[last] == '}'
        && JsonSpan(content).value == content[start..last + 1]
        && (forall k :: 0 <= k < start ==> content[k] != '{')
        && (forall k :: last < k < |content| ==> content[k] != '}');
  }

  // ---------------------------------------------------------------------------
  // Field limits

  /** `s[:n] + "..."` when `s` is longer than `n`. */
  function Clip(s: string, n: nat): (r: string)
    ensures |s| <= n ==> r == s
    ensures |s| > n ==> |r| == n + 3 && r[..n] == s[..n] && r[n..] == "..."
  {
    if |s| > n then s[..n] + "..." else s
  }

  /** A clipped string is clipped already: clipping twice is clipping once. */
  lemma ClipIdempotent(s: string, n: nat)
    ensures Clip(Clip(s, n), n) == Clip(s, n)
    ensures |Clip(s, n)| <= n + 3
  {
    if |s| > n {
      assert Clip(s, n)[..n] + "..." == Clip(s, n);
    }
  }

  /** What a decoded field holds, as far as `len`, slicing and truthiness go. */
  datatype JsonValue =
    | Str(s: string)           // a string
    | Sized(length: nat)       // a list or an object: `len` works, slicing and `+ "..."` raise
    | Unsized(truthy: bool)    // a number, a boolean or null: `len` raises

  predicate Truthy(v: JsonValue) {
    match v
    case Str(s) => s != ""
    case Sized(length) => length > 0
    case Unsized(truthy) => truthy
  }

  /** One `if key in parsed_content and [parsed_content[key] and] len(...) > maxLength` step. */
  datatype FieldLimit = FieldLimit(key: string, maxLength: nat, onlyIfTruthy: bool)

  const StoryLimits: seq<FieldLimit> := [
    FieldLimit("story", 800, false), FieldLimit("setting", 250, false),
    FieldLimit("character", 250, false), FieldLimit("objective", 250, false)]
  const ChallengeLimits: seq<FieldLimit> := [
    FieldLimit("question", 500, false), FieldLimit("answer", 800, false),
    FieldLimit("hint", 250, false), FieldLimit("explanation", 500, false)]
  const FeedbackLimits: seq<FieldLimit> := [
    FieldLimit("feedback", 500, false), FieldLimit("next_hint", 250, true)]

  /** The limit applied to one value; `None` when Python raises a TypeError on it. */
  function ApplyLimit(v: JsonValue, l: FieldLimit): (r: Option<JsonValue>)
    ensures l.onlyIfTruthy && !Truthy(v) ==> r == Some(v)
    ensures v.Str? ==> r == Some(Str(Clip(v.s, l.maxLength)))
    ensures r.None? <==> (!l.onlyIfTruthy || Truthy(v)) && (v.Unsized? || (v.Sized? && v.length > l.maxLength))
  {
    if l.onlyIfTruthy && !Truthy(v) then Some(v)
    else match v
      case Str(s) => Some(Str(Clip(s, l.maxLength)))
      case Sized(length) => if length > l.maxLength then None else Some(v)
      case Unsized(_) => None
  }

  /** Applying a limit to its own result changes nothing more. */
  lemma ApplyLimitIdempotent(v: JsonValue, l: FieldLimit)
    requires ApplyLimit(v, l).Some?
    ensures ApplyLimit(ApplyLimit(v, l).value, l) == ApplyLimit(v, l)
  {
    if v.Str? {
      ClipIdempotent(v.s, l.maxLength);
      if l.onlyIfTruthy && v.s != "" {
        assert Truthy(ApplyLimit(v, l).value) by {
          if |v.s| > l.maxLength {
            assert |Clip(v.s, l.maxLength)| == l.maxLength + 3;
          }
        }
      }
    }
  }

  type Fields = map<string, JsonValue>

  /** One step of a handler's chain; `None` is the exception raised by an earlier step or this one. */
  function LimitField(fields: Option<Fields>, l: FieldLimit): (r: Option<Fields>)
    ensures fields.None? ==> r.None?
    ensures r.Some? ==> fields.Some? && r.value.Keys == fields.value.Keys
    ensures r.Some? ==> forall k :: k in fields.value && k != l.key ==> r.value[k] == fields.value[k]
  {
    if fields.None? then None
    else if l.key !in fields.value then fields
    else match ApplyLimit(fields.value[l.key], l)
      case None => None
      case Some(v) => Some(fields.value[l.key := v])
  }

  /** The whole chain of steps, in order. */
  function LimitAll(fields: Option<Fields>, limits: seq<FieldLimit>): (r: Option<Fields>)
    ensures fields.None? ==> r.None?
    ensures r.Some? ==> fields.Some? && r.value.Keys == fields.value.Keys
    decreases |limits|
  {
    if limits == [] then fields else LimitAll(LimitField(fields, limits[0]), limits[1..])
  }

  /** A chain of two limits is the two steps in order. */
  lemma LimitAllOfTwo(f: Option<Fields>, a: FieldLimit, b: FieldLimit)
    ensures LimitAll(f, [a, b]) == LimitField(LimitField(f, a), b)
  {
    calc {
      LimitAll(f, [a, b]);
      { assert [a, b][0] == a && [a, b][1..] == [b]; }
      LimitAll(LimitField(f, a), [b]);
      { assert [b][0] == b && [b][1..] == []; }
      LimitAll(LimitField(LimitField(f, a), b), []);
    }
  }

  /** A chain of four limits is the four steps in order. */
  lemma LimitAllOfFour(f: Option<Fields>, a: FieldLimit, b: FieldLimit, c: FieldLimit, d: FieldLimit)
    ensures LimitAll(f, [a, b, c, d]) == LimitField(LimitField(LimitField(LimitField(f, a), b), c), d)
  {
    assert [a, b, c, d][1..] == [b, c, d];
    LimitAllOfTwo(LimitField(LimitField(f, a), b), c, d);
    assert [b, c, d][1..] == [c, d];
  }

  predicate DistinctKeys(limits: seq<FieldLimit>) {
    forall i, j :: 0 <= i < j < |limits| ==> limits[i].key != limits[j].key
  }

  /** The limit a key is subject to, if any. */
  function LimitFor(limits: seq<FieldLimit>, key: string): (r: Option<FieldLimit>)
    ensures r.Some? ==> r.value in limits && r.value.key == key
    ensures r.None? ==> forall i :: 0 <= i < |limits| ==> limits[i].key != key
  {
    if limits == [] then None
    else if limits[0].key == key then Some(limits[0])
    else LimitFor(limits[1..], key)
  }

  /** Whether some limited field holds a value the limit raises on. */
  predicate Raises(fields: Fields, limits: seq<FieldLimit>) {
    exists i :: 0 <= i < |limits| && limits[i].key in fields && ApplyLimit(fields[limits[i].key], limits[i]).None?
  }

  /** A field after its own limit (or as it is, when it has none or the limit raises). */
  function Limited(v: JsonValue, l: Option<FieldLimit>): JsonValue {
    if l.None? then v
    else match ApplyLimit(v, l.value)
      case Some(w) => w
      case None => v
  }

  /** The fields as the chain is meant to leave them: each one on its own, under its own limit. */
  function LimitedFields(fields: Fields, limits: seq<FieldLimit>): (r: Fields)
    ensures r.Keys == fields.Keys
  {
    map k | k in fields :: Limited(fields[k], LimitFor(limits, k))
  }

  lemma {:induction false} LimitAllAfterRaise(limits: seq<FieldLimit>)
    ensures LimitAll(None, limits) == None
    decreases |limits|
  {
    if limits != [] {
      LimitAllAfterRaise(limits[1..]);
    }
  }

  /** A step whose key is absent raises nothing. */
  lemma SkipAbsentKeyRaises(fields: Fields, l: FieldLimit, rest: seq<FieldLimit>)
    requires l.key !in fields
    ensures Raises(fields, [l] + rest) == Raises(fields, rest)
  {
    var limits := [l] + rest;
    if Raises(fields, limits) {
      var i :| 0 <= i < |limits| && limits[i].key in fields && ApplyLimit(fields[limits[i].key], limits[i]).None?;
      assert i > 0 && rest[i - 1] == limits[i];
    }
    if Raises(fields, rest) {
      var i :| 0 <= i < |rest| && rest[i].key in fields && ApplyLimit(fields[rest[i].key], rest[i]).None?;
      assert limits[i + 1] == rest[i];
    }
  }

  /** A step whose key is absent limits nothing. */
  lemma SkipAbsentKeyLimits(fields: Fields, l: FieldLimit, rest: seq<FieldLimit>)
    requires l.key !in fields
    ensures LimitedFields(fields, [l] + rest) == LimitedFields(fields, rest)
  {
    var limits := [l] + rest;
    assert limits[1..] == rest;
    forall k | k in fields
      ensures LimitFor(limits, k) == LimitFor(rest, k)
    {
    }
  }

  lemma FirstKeyNotRepeated(l: FieldLimit, rest: seq<FieldLimit>)
    requires DistinctKeys([l] + rest)
    ensures forall i :: 0 <= i < |rest| ==> rest[i].key != l.key
  {
    var limits := [l] + rest;
    forall i | 0 <= i < |rest|
      ensures rest[i].key != l.key
    {
      assert rest[i] == limits[i + 1];
      assert limits[0].key != limits[i + 1].key;
    }
  }

  /** After a step that limited its own key, the remaining steps raise exactly when the whole chain would. */
  lemma AfterStepRaises(fields: Fields, l: FieldLimit, rest: seq<FieldLimit>, v: JsonValue)
    requires forall i :: 0 <= i < |rest| ==> rest[i].key != l.key
    requires l.key in fields && ApplyLimit(fields[l.key], l) == Some(v)
    ensures Raises(fields[l.key := v], rest) == Raises(fields, [l] + rest)
  {
    var limits := [l] + rest;
    var next := fields[l.key := v];
    if Raises(fields, limits) {
      var i :| 0 <= i < |limits| && limits[i].key in fields && ApplyLimit(fields[limits[i].key], limits[i]).None?;
      assert i > 0 && rest[i - 1] == limits[i] && next[limits[i].key] == fields[limits[i].key];
    }
    if Raises(next, rest) {
      var i :| 0 <= i < |rest| && rest[i].key in next && ApplyLimit(next[rest[i].key], rest[i]).None?;
      assert limits[i + 1] == rest[i] && next[rest[i].key] == fields[rest[i].key];
    }
  }

  /** After a step that limited its own key, the remaining steps leave the fields as the whole chain would. */
  lemma AfterStepLimits(fields: Fields, l: FieldLimit, rest: seq<FieldLimit>, v: JsonValue)
    requires forall i :: 0 <= i < |rest| ==> rest[i].key != l.key
    requires l.key in fields && ApplyLimit(fields[l.key], l) == Some(v)
    ensures LimitedFields(fields[l.key := v], rest) == LimitedFields(fields, [l] + rest)
  {
    var limits := [l] + rest;
    assert limits[1..] == rest;
    var after := LimitedFields(fields[l.key := v], rest);
    var whole := LimitedFields(fields, limits);
    assert after.Keys == whole.Keys by {
      assert fields[l.key := v].Keys == fields.Keys;
    }
    assert forall k :: k in after ==> after[k] == whole[k] by {
      forall k | k in after
        ensures after[k] == whole[k]
      {
        if k == l.key {
          assert LimitFor(rest, k).None?;
          assert after[k] == Limited(v, None) == v;
          assert LimitFor(limits, k) == Some(l);
          assert whole[k] == Limited(fields[k], Some(l)) == v;
        } else {
          assert LimitFor(limits, k) == LimitFor(rest, k);
          assert after[k] == Limited(fields[k], LimitFor(rest, k));
        }
      }
    }
  }

  /**
   * With distinct keys, the chain raises exactly when some limited field
   * holds a value its limit raises on, and otherwise limits every field
   * independently of the others and of the order of the steps.
   */
  lemma {:induction false} LimitAllPointwise(fields: Fields, limits: seq<FieldLimit>)
    requires DistinctKeys(limits)
    ensures LimitAll(Some(fields), limits) ==
            if Raises(fields, limits) then None else Some(LimitedFields(fields, limits))
    decreases |limits|
  {
    if limits == [] {
      assert LimitedFields(fields, limits) == fields;
    } else {
      var l, rest := limits[0], limits[1..];
      assert limits == [l] + rest;
      assert DistinctKeys(rest) by {
        assert forall i :: 0 <= i < |rest| ==> rest[i] == limits[i + 1];
      }
      if l.key !in fields {
        LimitAllPointwise(fields, rest);
        SkipAbsentKeyRaises(fields, l, rest);
        SkipAbsentKeyLimits(fields, l, rest);
      } else if ApplyLimit(fields[l.key], l).None? {
        LimitAllAfterRaise(rest);
        assert limits[0].key in fields;
      } else {
        var v := ApplyLimit(fields[l.key], l).value;
        LimitAllPointwise(fields[l.key := v], rest);
        FirstKeyNotRepeated(l, rest);
        AfterStepRaises(fields, l, rest, v);
        AfterStepLimits(fields, l, rest, v);
      }
    }
  }

  /**
   * What the handlers return after a successful chain: the same keys, each
   * limited string at most its limit plus the three dots, every field
   * without a limit unchanged, and limiting again changes nothing.
   */
  lemma LimitAllShapes(fields: Fields, limits: seq<FieldLimit>)
    requires DistinctKeys(limits)
    requires LimitAll(Some(fields), limits).Some?
    ensures var out := LimitAll(Some(fields), limits).value;
            && out.Keys == fields.Keys
            && (forall i :: 0 <= i < |limits| && limits[i].key in out && out[limits[i].key].Str? ==>
                  |out[limits[i].key].s| <= limits[i].maxLength + 3)
            && (forall k :: k in fields && LimitFor(limits, k).None? ==> out[k] == fields[k])
            && LimitAll(Some(out), limits) == Some(out)
  {
    LimitAllPointwise(fields, limits);
    var out := LimitedFields(fields, limits);
    LimitedFieldsBound(fields, limits);
    LimitedFieldsStable(fields, limits);
    LimitAllPointwise(out, limits);
  }

  /** With distinct keys, the limit found for a listed key is that entry's own limit. */
  lemma LimitForIndex(limits: seq<FieldLimit>, i: int)
    requires DistinctKeys(limits) && 0 <= i < |limits|
    ensures LimitFor(limits, limits[i].key) == Some(limits[i])
  {
    var l := LimitFor(limits, limits[i].key).value;
    var j :| 0 <= j < |limits| && limits[j] == l;
  }

  /** Each limited string is at most its limit plus the three dots. */
  lemma LimitedFieldsBound(fields: Fields, limits: seq<FieldLimit>)
    requires DistinctKeys(limits)
    ensures var out := LimitedFields(fields, limits);
            forall i :: 0 <= i < |limits| && limits[i].key in out && out[limits[i].key].Str? ==>
              |out[limits[i].key].s| <= limits[i].maxLength + 3
  {
    var out := LimitedFields(fields, limits);
    forall i | 0 <= i < |limits| && limits[i].key in out && out[limits[i].key].Str?
      ensures |out[limits[i].key].s| <= limits[i].maxLength + 3
    {
      var k := limits[i].key;
      LimitForIndex(limits, i);
      if fields[k].Str? {
        ClipIdempotent(fields[k].s, limits[i].maxLength);
      }
    }
  }

  /** Fields limited without a raise are limited again without a raise, and stay as they are. */
  lemma LimitedFieldsStable(fields: Fields, limits: seq<FieldLimit>)
    requires DistinctKeys(limits)
    requires !Raises(fields, limits)
    ensures var out := LimitedFields(fields, limits);
            !Raises(out, limits) && LimitedFields(out, limits) == out
  {
    var out := LimitedFields(fields, limits);
    forall i | 0 <= i < |limits| && limits[i].key in out
      ensures ApplyLimit(out[limits[i].key], limits[i]).Some?
    {
      LimitForIndex(limits, i);
      ApplyLimitIdempotent(fields[limits[i].key], limits[i]);
    }
    forall k | k in out
      ensures LimitedFields(out, limits)[k] == out[k]
    {
      if LimitFor(limits, k).Some? {
        ApplyLimitIdempotent(fields[k], LimitFor(limits, k).value);
      }
    }
    assert LimitedFields(out, limits) == out;
  }

  lemma LimitTablesDistinct()
    ensures DistinctKeys(StoryLimits) && DistinctKeys(ChallengeLimits) && DistinctKeys(FeedbackLimits)
  {
  }

  // ---------------------------------------------------------------------------
  // The endpoints

  /** The prompt each endpoint sends, by its parameters (the prompt text itself is not modelled). */
  datatype Prompt =
    | StoryPrompt(level: string)
    | ChallengePrompt(level: string, language: string)
    | FeedbackPrompt(question: string, correctAnswer: string, userAnswer: string)

  /** The result of `json.loads` on the extracted span: an object, or a `JSONDecodeError`. */
  datatype Parse = Object(fields: Fields) | DecodeError

  /** An HTTP response: a JSON object (200), a JSON error with a status, or an unhandled exception. */
  datatype Response = Json(body: Fields) | ErrorResponse(status: nat, error: string) | InternalServerError

  const StoryTokens: nat := 300
  const ChallengeTokens: nat := 400
  const FeedbackTokens: nat := 200
  const StoryFailure: string := "Failed to generate story content"
  const ChallengeFailure: string := "Failed to generate challenge content"
  const FeedbackFailure: string := "Failed to generate feedback"
  const NoJsonFound: string := "Could not parse JSON from Amazon Q response"
  const InvalidJson: string := "Invalid JSON response from Amazon Q"

  /** What a handler answers once the generator has returned `generated`. */
  function Respond(generated: Generated, parse: string -> Parse, limits: seq<FieldLimit>, failure: string): (r: Response)
    ensures generated.Failed? ==> r == ErrorResponse(500, failure)
    ensures generated.Content? && JsonSpan(generated.text).None? ==> r == ErrorResponse(500, NoJsonFound)
  {
    if generated.Failed? then ErrorResponse(500, failure)
    else match JsonSpan(generated.text)
      case None => ErrorResponse(500, NoJsonFound)
      case Some(span) =>
        match parse(span)
        case DecodeError => ErrorResponse(500, InvalidJson)
        case Object(fields) =>
          match LimitAll(Some(fields), limits)
          case None => InternalServerError
          case Some(out) => Json(out)
  }

  /**
   * A JSON reply is the decoded span of the generated text, with its
   * limited fields cut to their limits and everything else unchanged; an
   * unhandled exception comes only from a limited field that is not a
   * string and cannot be measured or cut.
   */
  lemma RespondCases(generated: Generated, parse: string -> Parse, limits: seq<FieldLimit>, failure: string)
    requires DistinctKeys(limits)
    ensures var r := Respond(generated, parse, limits, failure);
            r.Json? ==>
              && generated.Content? && JsonSpan(generated.text).Some?
              && parse(JsonSpan(generated.text).value).Object?
              && r.body == LimitedFields(parse(JsonSpan(generated.text).value).fields, limits)
              && (forall i :: 0 <= i < |limits| && limits[i].key in r.body && r.body[limits[i].key].Str? ==>
                    |r.body[limits[i].key].s| <= limits[i].maxLength + 3)
    ensures var r := Respond(generated, parse, limits, failure);
            && generated.Content? && JsonSpan(generated.text).Some?
            && parse(JsonSpan(generated.text).value).Object?
            && !Raises(parse(JsonSpan(generated.text).value).fields, limits) ==>
              r == Json(LimitedFields(parse(JsonSpan(generated.text).value).fields, limits))
    ensures var r := Respond(generated, parse, limits, failure);
            generated.Content? && JsonSpan(generated.text).Some? && parse(JsonSpan(generated.text).value).DecodeError? ==>
              r == ErrorResponse(500, InvalidJson)
    ensures var r := Respond(generated, parse, limits, failure);
            r.InternalServerError? <==>
              && generated.Content? && JsonSpan(generated.text).Some?
              && parse(JsonSpan(generated.text).value).Object?
              && Raises(parse(JsonSpan(generated.text).value).fields, limits)
  {
    if generated.Content? && JsonSpan(generated.text).Some? && parse(JsonSpan(generated.text).value).Object? {
      var fields := parse(JsonSpan(generated.text).value).fields;
      LimitAllPointwise(fields, limits);
      if LimitAll(Some(fields), limits).Some? {
        LimitAllShapes(fields, limits);
      }
    }
  }

  /** `get_story()`: `level` defaults to "1". */
  method GetStory(level: Option<string>, run: (Prompt, nat) -> RunOutcome, parse: string -> Parse)
    returns (resp: Response)
    ensures var lv := if level.Some? then level.value else "1";
            resp == Respond(GenerateWithAmazonQ(run(StoryPrompt(lv), StoryTokens), StoryTokens), parse, StoryLimits, StoryFailure)
  {
    var lv := if level.Some? then level.value else "1";
    var result := GenerateWithAmazonQ(run(StoryPrompt(lv), StoryTokens), StoryTokens);
    if result.Failed? {
      return ErrorResponse(500, StoryFailure);
    }
    var span := JsonSpan(result.text);
    if span.None? {
      return ErrorResponse(500, NoJsonFound);
    }
    var parsed := parse(span.value);
    if parsed.DecodeError? {
      return ErrorResponse(500, InvalidJson);
    }
    var content := Some(parsed.fields);
    content := LimitField(content, FieldLimit("story", 800, false));
    content := LimitField(content, FieldLimit("setting", 250, false));
    content := LimitField(content, FieldLimit("character", 250, false));
    content := LimitField(content, FieldLimit("objective", 250, false));
    LimitAllOfFour(Some(parsed.fields), StoryLimits[0], StoryLimits[1], StoryLimits[2], StoryLimits[3]);
    assert content == LimitAll(Some(parsed.fields), StoryLimits);
    resp := if content.None? then InternalServerError else Json(content.value);
  }

  /** `get_challenge()`: `level` defaults to "1" and `language` to "python". */
  method GetChallenge(level: Option<string>, language: Option<string>, run: (Prompt, nat) -> RunOutcome, parse: string -> Parse)
    returns (resp: Response)
    ensures var lv := if level.Some? then level.value else "1";
            var lang := if language.Some? then language.value else "python";
            resp == Respond(GenerateWithAmazonQ(run(ChallengePrompt(lv, lang), ChallengeTokens), ChallengeTokens),
                            parse, ChallengeLimits, ChallengeFailure)
  {
    var lv := if level.Some? then level.value else "1";
    var lang := if language.Some? then language.value else "python";
    var result := GenerateWithAmazonQ(run(ChallengePrompt(lv, lang), ChallengeTokens), ChallengeTokens);
    if result.Failed? {
      return ErrorResponse(500, ChallengeFailure);
    }
    var span := JsonSpan(result.text);
    if span.None? {
      return ErrorResponse(500, NoJsonFound);
    }
    var parsed := parse(span.value);
    if parsed.DecodeError? {
      return ErrorResponse(500, InvalidJson);
    }
    var content := Some(parsed.fields);
    content := LimitField(content, FieldLimit("question", 500, false));
    content := LimitField(content, FieldLimit("answer", 800, false));
    content := LimitField(content, FieldLimit("hint", 250, false));
    content := LimitField(content, FieldLimit("explanation", 500, false));
    LimitAllOfFour(Some(parsed.fields), ChallengeLimits[0], ChallengeLimits[1], ChallengeLimits[2], ChallengeLimits[3]);
    assert content == LimitAll(Some(parsed.fields), ChallengeLimits);
    resp := if content.None? then InternalServerError else Json(content.value);
  }

  /**
   * `get_feedback()`: absent inputs are empty; the answer, the correct
   * answer and the question are cut to 1000, 1000 and 500 characters
   * before they go into the prompt.
   */
  method GetFeedback(answer: Option<string>, correctAnswer: Option<string>, question: Option<string>,
                     run: (Prompt, nat) -> RunOutcome, parse: string -> Parse)
    returns (resp: Response)
    ensures var p := FeedbackPrompt(Clip(if question.Some? then question.value else "", 500),
                                    Clip(if correctAnswer.Some? then correctAnswer.value else "", 1000),
                                    Clip(if answer.Some? then answer.value else "", 1000));
            resp == Respond(GenerateWithAmazonQ(run(p, FeedbackTokens), FeedbackTokens), parse, FeedbackLimits, FeedbackFailure)
  {
    var userAnswer := if answer.Some? then answer.value else "";
    var correct := if correctAnswer.Some? then correctAnswer.value else "";
    var q := if question.Some? then question.value else "";
    if |userAnswer| > 1000 {
      userAnswer := userAnswer[..1000] + "...";
    }
    if |correct| > 1000 {
      correct := correct[..1000] + "...";
    }
    if |q| > 500 {
      q := q[..500] + "...";
    }
    assert q == Clip(if question.Some? then question.value else "", 500);
    assert correct == Clip(if correctAnswer.Some? then correctAnswer.value else "", 1000);
    assert userAnswer == Clip(if answer.Some? then answer.value else "", 1000);
    var result := GenerateWithAmazonQ(run(FeedbackPrompt(q, correct, userAnswer), FeedbackTokens), FeedbackTokens);
    if result.Failed? {
      return ErrorResponse(500, FeedbackFailure);
    }
    var span := JsonSpan(result.text);
    if span.None? {
      return ErrorResponse(500, NoJsonFound);
    }
    var parsed := parse(span.value);
    if parsed.DecodeError? {
      return ErrorResponse(500, InvalidJson);
    }
    var content := Some(parsed.fields);
    content := LimitField(content, FieldLimit("feedback", 500, false));
    content := LimitField(content, FieldLimit("next_hint", 250, true));
    LimitAllOfTwo(Some(parsed.fields), FeedbackLimits[0], FeedbackLimits[1]);
    assert content == LimitAll(Some(parsed.fields), FeedbackLimits);
    resp := if content.None? then InternalServerError else Json(content.value);
  }
}
