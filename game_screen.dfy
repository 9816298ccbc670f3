/**
 * Answer checking and the fill-in-blank helpers of the challenge screen
 * (frontend/src/components/GameScreen.js). The React state the handlers set
 * is the class `AnswerForm`; the verdict rules, the blank counting and
 * `getMaxLength` are functions on strings.
 */
module GameScreen {
  import opened Optional
  import opened Strings
  import Combat

  /** The fields of a challenge the screen reads. `hint` and `template` may be absent. */
  datatype Challenge = Challenge(kind: string, answer: string, hint: Option<string>, template: Option<string>)

  /** The feedback object `{is_correct, feedback, next_hint}`. */
  datatype Feedback = Feedback(isCorrect: bool, message: string, nextHint: Option<string>)

  const MultipleChoice: string := "multiple-choice"
  const FillInBlank: string := "fill-in-blank"
  /** The blank marker of a fill-in-blank template. */
  const Blank: string := "_____"
  const Comma: string := ","
  /** The separator `handleBlankChange` joins the blanks with. */
  const CommaSpace: string := ", "
  const CorrectMessage: string := "Correct! Great job!"
  const IncorrectPrefix: string := "Incorrect. The correct answer is: "
  /** The `maxLength` of a blank with no expected part to size it. */
  const DefaultMaxLength: nat := 20

  predicate IsSemicolon(c: char) {
    c == ';'
  }

  // ---------------------------------------------------------------------------
  // Comma-separated blanks

  /** `parts.map(part => part.trim())`. */
  function TrimAll(parts: seq<string>): (r: seq<string>)
    ensures |r| == |parts|
    ensures forall i :: 0 <= i < |parts| ==> r[i] == Trim(parts[i], IsJsSpace)
  {
    seq(|parts|, i requires 0 <= i < |parts| => Trim(parts[i], IsJsSpace))
  }

  /** `s.split(',').map(part => part.trim())`. */
  function CommaParts(s: string): (r: seq<string>)
    ensures |r| == |Split(s, Comma)|
  {
    TrimAll(Split(s, Comma))
  }

  /** `part.replace(/\s/g, '').toLowerCase()`: what one blank is compared by. */
  function BlankKey(part: string): string {
    ToLower(Remove(part, IsJsSpace))
  }

  /** The comma branch: as many parts as expected, and each equal to its counterpart by `BlankKey`. */
  predicate BlanksMatch(user: string, expected: string) {
    var u := CommaParts(user);
    var c := CommaParts(expected);
    |u| == |c| && forall i :: 0 <= i < |u| ==> BlankKey(u[i]) == BlankKey(c[i])
  }

  // ---------------------------------------------------------------------------
  // A single answer

  /** `s.trim().replace(/\s+/g, ' ')`. */
  function Normalize(s: string): string {
    Collapse(Trim(s, IsJsSpace), IsJsSpace)
  }

  /** `s.replace(/\s/g, '').replace(/;/g, '')`. */
  function Squeeze(s: string): string {
    Remove(Remove(s, IsJsSpace), IsSemicolon)
  }

  /** The single-answer branch: normalised equality, or equality without whitespace and `;`, exactly or ignoring case. */
  predicate SingleMatch(user: string, expected: string) {
    var u := Normalize(user);
    var c := Normalize(expected);
    u == c || Squeeze(u) == Squeeze(c) || ToLower(Squeeze(u)) == ToLower(Squeeze(c))
  }

  /**
   * The verdict of `handleSubmit` for a challenge, the selected option and
   * the typed answer. A multiple-choice question looks only at the selected
   * option; any other question accepts its own expected answer typed back.
   */
  predicate IsCorrect(c: Challenge, selectedOption: Option<string>, userAnswer: string): (correct: bool)
    ensures c.kind == MultipleChoice ==> (correct <==> selectedOption == Some(c.answer))
    ensures c.kind != MultipleChoice && userAnswer == c.answer ==> correct
  {
    if c.kind == MultipleChoice then selectedOption == Some(c.answer)
    else if c.kind == FillInBlank && ',' in userAnswer then BlanksMatch(userAnswer, c.answer)
    else SingleMatch(userAnswer, c.answer)
  }

  /** The feedback object built from the verdict. */
  function MakeFeedback(c: Challenge, correct: bool): (fb: Feedback)
    ensures fb.isCorrect == correct
    ensures fb.message == if correct then CorrectMessage else IncorrectPrefix + c.answer
    ensures fb.nextHint == if correct then None else c.hint
  {
    Feedback(correct,
             if correct then CorrectMessage else IncorrectPrefix + c.answer,
             if correct then None else c.hint)
  }

  // ---------------------------------------------------------------------------
  // What the single-answer rule accepts

  /**
   * An independent statement of the single-answer rule: lower-case the
   * letters, then delete every whitespace character and every `;`.
   */
  function Canonical(s: string): string {
    Remove(Remove(ToLower(s), IsJsSpace), IsSemicolon)
  }

  lemma LowerKeepsSpaces()
    ensures forall c :: IsJsSpace(LowerChar(c)) == IsJsSpace(c)
    ensures forall c :: IsSemicolon(LowerChar(c)) == IsSemicolon(c)
  {
  }

  /** Normalising and then squeezing and lower-casing is the same as the canonical form. */
  lemma LowerSqueezeNormalize(s: string)
    ensures ToLower(Squeeze(Normalize(s))) == Canonical(s)
  {
    RemoveCollapse(Trim(s, IsJsSpace), IsJsSpace);
    RemoveTrim(s, IsJsSpace);
    assert Squeeze(Normalize(s)) == Squeeze(s);
    LowerKeepsSpaces();
    LowerRemove(Remove(s, IsJsSpace), IsSemicolon);
    LowerRemove(s, IsJsSpace);
  }

  /**
   * The single-answer verdict holds exactly when both answers have the same
   * canonical form: the exact and the whitespace-free comparisons add
   * nothing to the case-insensitive one.
   */
  lemma SingleMatchCanonical(user: string, expected: string)
    ensures SingleMatch(user, expected) <==> Canonical(user) == Canonical(expected)
  {
    LowerSqueezeNormalize(user);
    LowerSqueezeNormalize(expected);
  }

  lemma {:induction false} LowerAppend(a: string, b: string)
    ensures ToLower(a + b) == ToLower(a) + ToLower(b)
  {
    assert forall i :: 0 <= i < |a + b| ==> ToLower(a + b)[i] == (ToLower(a) + ToLower(b))[i];
  }

  /** The canonical form of a concatenation is the concatenation of the canonical forms. */
  lemma CanonicalAppend(a: string, b: string)
    ensures Canonical(a + b) == Canonical(a) + Canonical(b)
  {
    LowerAppend(a, b);
    RemoveAppend(ToLower(a), ToLower(b), IsJsSpace);
    RemoveAppend(Remove(ToLower(a), IsJsSpace), Remove(ToLower(b), IsJsSpace), IsSemicolon);
  }

  lemma CanonicalOfIgnored(x: char)
    requires IsJsSpace(x) || IsSemicolon(x)
    ensures Canonical([x]) == []
  {
    assert ToLower([x]) == [x];
    assert Remove([x], IsJsSpace) == if IsJsSpace(x) then [] else [x];
  }

  /** Whitespace and `;` characters contribute nothing to the canonical form. */
  lemma CanonicalDropsIgnored(a: string, x: char, b: string)
    requires IsJsSpace(x) || IsSemicolon(x)
    ensures Canonical(a + [x] + b) == Canonical(a + b)
  {
    CanonicalAppend(a + [x], b);
    CanonicalAppend(a, [x]);
    CanonicalAppend(a, b);
    CanonicalOfIgnored(x);
  }

  /**
   * In the single-answer branch the verdict does not change when the user's
   * answer gains (or loses) one whitespace character or semicolon anywhere,
   * or changes the case of its letters.
   */
  lemma SingleMatchIgnoresSpacingAndCase(a: string, x: char, b: string, expected: string)
    requires IsJsSpace(x) || IsSemicolon(x)
    ensures SingleMatch(a + [x] + b, expected) <==> SingleMatch(a + b, expected)
    ensures SingleMatch(ToLower(a), expected) <==> SingleMatch(a, expected)
  {
    SingleMatchCanonical(a + [x] + b, expected);
    SingleMatchCanonical(a + b, expected);
    SingleMatchCanonical(ToLower(a), expected);
    SingleMatchCanonical(a, expected);
    CanonicalDropsIgnored(a, x, b);
    LowerTwice(a);
  }

  // ---------------------------------------------------------------------------
  // What the comma rule accepts from the blank inputs

  /** One blank's key does not depend on the spaces around it. */
  lemma BlankKeyTrim(part: string)
    ensures BlankKey(Trim(part, IsJsSpace)) == BlankKey(part)
  {
    RemoveTrim(part, IsJsSpace);
  }

  /** Splitting a string that starts with a non-separator character extends the first part. */
  lemma SplitCons(x: char, s: string, c: char)
    requires x != c
    ensures Split([x] + s, [c]) == [[x] + Split(s, [c])[0]] + Split(s, [c])[1..]
  {
    assert ([x] + s)[..1] == [x];
    assert ([x] + s)[1..] == s;
  }

  lemma TrimAllCons(p: string, ps: seq<string>)
    ensures TrimAll([p] + ps) == [Trim(p, IsJsSpace)] + TrimAll(ps)
  {
  }

  /** The first blank before `", "` is the first comma part, and the space after the comma is trimmed away. */
  lemma CommaPartsCons(first: string, rest: string)
    requires ',' !in first
    ensures CommaParts(first + CommaSpace + rest) == [Trim(first, IsJsSpace)] + CommaParts(rest)
  {
    assert first + CommaSpace + rest == first + [','] + ([' '] + rest);
    SplitAtFirst(first, ',', [' '] + rest);
    SplitCons(' ', rest, ',');
    var tail := Split(rest, Comma);
    TrimLeadingSpace(' ', tail[0], IsJsSpace);
    TrimAllCons(first, Split([' '] + rest, Comma));
    TrimAllCons([' '] + tail[0], tail[1..]);
    TrimAllCons(tail[0], tail[1..]);
    assert tail == [tail[0]] + tail[1..];
  }

  /**
   * Blanks joined with `", "` and split again at the commas give back the
   * blanks, up to the space after each comma, which trimming removes.
   */
  lemma {:induction false} CommaPartsOfBlanks(blanks: seq<string>)
    requires |blanks| >= 1
    requires forall i :: 0 <= i < |blanks| ==> ',' !in blanks[i]
    ensures CommaParts(Join(blanks, CommaSpace)) == TrimAll(blanks)
    decreases |blanks|
  {
    if |blanks| == 1 {
      SplitWithoutSeparator(blanks[0], ',');
    } else {
      var rest := blanks[1..];
      assert forall i :: 0 <= i < |rest| ==> ',' !in rest[i] by {
        forall i | 0 <= i < |rest|
          ensures ',' !in rest[i]
        {
          assert rest[i] == blanks[i + 1];
        }
      }
      CommaPartsOfBlanks(rest);
      CommaPartsStep(blanks);
    }
  }

  /** One blank more in front: the inductive step of `CommaPartsOfBlanks`. */
  lemma CommaPartsStep(blanks: seq<string>)
    requires |blanks| >= 2 && ',' !in blanks[0]
    requires CommaParts(Join(blanks[1..], CommaSpace)) == TrimAll(blanks[1..])
    ensures CommaParts(Join(blanks, CommaSpace)) == TrimAll(blanks)
  {
    var first, rest := blanks[0], blanks[1..];
    calc {
      CommaParts(Join(blanks, CommaSpace));
      { CommaPartsOfJoinCons(blanks); }
      [Trim(first, IsJsSpace)] + TrimAll(rest);
      { TrimAllCons(first, rest); }
      TrimAll([first] + rest);
      { assert blanks == [first] + rest; }
      TrimAll(blanks);
    }
  }

  /** The first blank of a join is its first comma part. */
  lemma CommaPartsOfJoinCons(blanks: seq<string>)
    requires |blanks| >= 2 && ',' !in blanks[0]
    ensures CommaParts(Join(blanks, CommaSpace)) == [Trim(blanks[0], IsJsSpace)] + CommaParts(Join(blanks[1..], CommaSpace))
  {
    var joined := Join(blanks[1..], CommaSpace);
    assert Join(blanks, CommaSpace) == blanks[0] + CommaSpace + joined;
    CommaPartsCons(blanks[0], joined);
  }

  lemma JoinHasComma(blanks: seq<string>)
    requires |blanks| >= 2
    ensures ',' in Join(blanks, CommaSpace)
  {
    assert Join(blanks, CommaSpace)[|blanks[0]|] == ',';
  }

  /**
   * Two or more blanks without commas in them, as `handleBlankChange` joins
   * them, are judged correct exactly when there is one blank per expected
   * comma part and each blank equals its part once whitespace is removed
   * and letters are lower-cased.
   */
  lemma FilledBlanksJudged(c: Challenge, selectedOption: Option<string>, blanks: seq<string>)
    requires c.kind == FillInBlank
    requires |blanks| >= 2
    requires forall i :: 0 <= i < |blanks| ==> ',' !in blanks[i]
    ensures IsCorrect(c, selectedOption, Join(blanks, CommaSpace)) <==>
            |blanks| == |Split(c.answer, Comma)| &&
            forall i :: 0 <= i < |blanks| ==> BlankKey(blanks[i]) == BlankKey(Split(c.answer, Comma)[i])
  {
    var joined := Join(blanks, CommaSpace);
    var raw := Split(c.answer, Comma);
    JoinHasComma(blanks);
    CommaPartsOfBlanks(blanks);
    KeysOfTrimAll(blanks);
    KeysOfTrimAll(raw);
    var u, e := TrimAll(blanks), TrimAll(raw);
    calc <==> {
      IsCorrect(c, selectedOption, joined);
      { assert c.kind[0] != MultipleChoice[0]; }
      BlanksMatch(joined, c.answer);
      { assert CommaParts(joined) == u && CommaParts(c.answer) == e; }
      |u| == |e| && forall i :: 0 <= i < |u| ==> BlankKey(u[i]) == BlankKey(e[i]);
      { SameKeysPointwise(u, blanks, e, raw, BlankKey); }
      |blanks| == |raw| && forall i :: 0 <= i < |blanks| ==> BlankKey(blanks[i]) == BlankKey(raw[i]);
    }
  }

  /** Two lists compare equal by `key` exactly when lists with the same keys, item for item, do. */
  lemma SameKeysPointwise(a: seq<string>, a2: seq<string>, b: seq<string>, b2: seq<string>, key: string -> string)
    requires |a| == |a2| && |b| == |b2|
    requires forall i :: 0 <= i < |a| ==> key(a[i]) == key(a2[i])
    requires forall i :: 0 <= i < |b| ==> key(b[i]) == key(b2[i])
    ensures (|a| == |b| && forall i :: 0 <= i < |a| ==> key(a[i]) == key(b[i])) <==>
            (|a2| == |b2| && forall i :: 0 <= i < |a2| ==> key(a2[i]) == key(b2[i]))
  {
  }

  /** Trimming every part leaves each part's comparison key unchanged. */
  lemma KeysOfTrimAll(parts: seq<string>)
    ensures forall i :: 0 <= i < |parts| ==> BlankKey(TrimAll(parts)[i]) == BlankKey(parts[i])
  {
    forall i | 0 <= i < |parts|
      ensures BlankKey(TrimAll(parts)[i]) == BlankKey(parts[i])
    {
      BlankKeyTrim(parts[i]);
    }
  }

  // ---------------------------------------------------------------------------
  // The hint in the feedback box

  /** The feedback box as written shows the hint only when the answer was correct and a hint is set. */
  predicate HintShownAsWritten(fb: Feedback) {
    fb.isCorrect && fb.nextHint.Some? && fb.nextHint.value != ""
  }

  /** The hint is only attached to incorrect answers, so the box as written never shows it. */
  lemma HintNeverShownAsWritten(c: Challenge, correct: bool)
    ensures !HintShownAsWritten(MakeFeedback(c, correct))
  {
  }

  /** The evidently intended test: show the hint after an incorrect answer when there is one. */
  predicate HintShown(fb: Feedback) {
    !fb.isCorrect && fb.nextHint.Some? && fb.nextHint.value != ""
  }

  /** With the corrected test, the hint is shown exactly after an incorrect answer to a challenge that has one. */
  lemma HintShownAfterMistake(c: Challenge, correct: bool)
    ensures HintShown(MakeFeedback(c, correct)) <==> !correct && c.hint.Some? && c.hint.value != ""
    ensures HintShown(MakeFeedback(c, correct)) ==> MakeFeedback(c, correct).nextHint == c.hint
  {
  }

  // ---------------------------------------------------------------------------
  // The blanks of a template

  /** `(template.match(/_____/g) || []).length`: the number of blank inputs to keep answers for. */
  function BlankCount(template: string): (n: nat)
    ensures n + 1 == |Split(template, Blank)|
  {
    SplitCount(template, Blank);
    Occurrences(template, Blank)
  }

  /** `template.split('_____')`: the text pieces between the blanks. */
  function TemplateParts(template: string): (parts: seq<string>)
    ensures |parts| >= 1
  {
    Split(template, Blank)
  }

  /** The template is drawn as its pieces with one input between each consecutive pair, and one answer slot per input. */
  lemma {:induction false} OneInputPerBlank(template: string)
    ensures |TemplateParts(template)| - 1 == BlankCount(template)
    ensures Join(TemplateParts(template), Blank) == template
  {
    SplitCount(template, Blank);
    JoinSplit(template, Blank);
  }

  /** `getMaxLength(index)`: the room a blank input leaves for its expected answer. */
  function GetMaxLength(challenge: Option<Challenge>, index: nat): (n: nat)
    ensures n >= 2
    ensures challenge.None? || challenge.value.answer == "" ==> n == DefaultMaxLength
    ensures challenge.Some? && challenge.value.answer != "" && index >= |CommaParts(challenge.value.answer)| ==>
              n == DefaultMaxLength
    ensures challenge.Some? && challenge.value.answer != "" && index < |CommaParts(challenge.value.answer)| ==>
              n == |CommaParts(challenge.value.answer)[index]| + 2
  {
    if challenge.None? || challenge.value.answer == "" then DefaultMaxLength
    else
      var answers := Split(challenge.value.answer, Comma);
      if index >= |answers| then DefaultMaxLength
      else |Trim(answers[index], IsJsSpace)| + 2
  }

  /**
   * Every blank can hold its expected part with two characters to spare;
   * with an expected answer the limit is exactly the part's length plus 2.
   */
  lemma ExpectedBlanksFit(c: Challenge)
    ensures forall i :: 0 <= i < |CommaParts(c.answer)| ==>
              |CommaParts(c.answer)[i]| + 2 <= GetMaxLength(Some(c), i)
    ensures c.answer != "" ==>
              forall i :: 0 <= i < |CommaParts(c.answer)| ==> |CommaParts(c.answer)[i]| + 2 == GetMaxLength(Some(c), i)
  {
    var parts := CommaParts(c.answer);
    forall i | 0 <= i < |parts|
      ensures |parts[i]| + 2 <= GetMaxLength(Some(c), i)
    {
      if c.answer == "" {
        assert Split(c.answer, Comma) == [""];
        assert |parts[i]| == 0;
      }
    }
  }

  /** The expected comma parts, typed into the blanks, are judged correct. */
  lemma ExpectedBlanksPass(c: Challenge, selectedOption: Option<string>)
    requires c.kind == FillInBlank
    requires |Split(c.answer, Comma)| >= 2
    ensures IsCorrect(c, selectedOption, Join(CommaParts(c.answer), CommaSpace))
  {
    var raw := Split(c.answer, Comma);
    var parts := CommaParts(c.answer);
    assert parts == TrimAll(raw);
    SplitPartsAvoidChar(c.answer, ',');
    forall i | 0 <= i < |parts|
      ensures ',' !in parts[i]
    {
      TrimKeepsAbsent(raw[i], IsJsSpace, ',');
    }
    FilledBlanksJudged(c, selectedOption, parts);
    KeysOfTrimAll(raw);
  }

  // ---------------------------------------------------------------------------
  // The screen's answer state

  /** `blanks` with slot `index` set to `value`; slots a JavaScript array would leave empty join as "". */
  function SetBlank(blanks: seq<string>, index: nat, value: string): (r: seq<string>)
    ensures |r| == if index < |blanks| then |blanks| else index + 1
    ensures r[index] == value
    ensures forall i :: 0 <= i < |r| && i != index ==> r[i] == if i < |blanks| then blanks[i] else ""
  {
    var padded := if index < |blanks| then blanks else blanks + seq(index + 1 - |blanks|, _ => "");
    padded[index := value]
  }

  /** The state the challenge screen keeps for answering. */
  class AnswerForm {
    var challenge: Option<Challenge>
    var userAnswer: string
    var selectedOption: Option<string>
    var blankAnswers: seq<string>
    var feedback: Option<Feedback>

    constructor()
      ensures challenge == None && userAnswer == "" && selectedOption == None
      ensures blankAnswers == [] && feedback == None
    {
      challenge := None;
      userAnswer := "";
      selectedOption := None;
      blankAnswers := [];
      feedback := None;
    }

    /** A challenge arrives: a fill-in-blank one with a template gets one empty answer per blank. */
    method LoadChallenge(c: Challenge)
      modifies this`challenge, this`blankAnswers
      ensures challenge == Some(c)
      ensures c.kind == FillInBlank && c.template.Some? && c.template.value != "" ==>
                blankAnswers == seq(BlankCount(c.template.value), _ => "")
      ensures !(c.kind == FillInBlank && c.template.Some? && c.template.value != "") ==>
                blankAnswers == old(blankAnswers)
    {
      challenge := Some(c);
      if c.kind == FillInBlank && c.template.Some? && c.template.value != "" {
        blankAnswers := seq(BlankCount(c.template.value), _ => "");
      }
    }

    /** `handleAnswerChange`. */
    method HandleAnswerChange(value: string)
      modifies this`userAnswer
      ensures userAnswer == value
    {
      userAnswer := value;
    }

    /** `handleOptionSelect`. */
    method HandleOptionSelect(option: string)
      modifies this`selectedOption
      ensures selectedOption == Some(option)
    {
      selectedOption := Some(option);
    }

    /** `handleBlankChange(index, value)`: one slot of a copy changes, and the answer is all slots joined by ", ". */
    method HandleBlankChange(index: nat, value: string)
      modifies this`blankAnswers, this`userAnswer
      ensures blankAnswers == SetBlank(old(blankAnswers), index, value)
      ensures userAnswer == Join(blankAnswers, CommaSpace)
    {
      var newAnswers := SetBlank(blankAnswers, index, value);
      blankAnswers := newAnswers;
      userAnswer := Join(newAnswers, CommaSpace);
    }

    /**
     * `handleSubmit()` against the game engine. Without a challenge nothing
     * happens. Otherwise the feedback is set and a correct answer starts the
     * player's attack, an incorrect one the enemy's. After the player's
     * attack the handler calls `addXP`, which the engine does not define:
     * the handler stops there with a TypeError (`aborted`), so the enemy
     * reset it would have scheduled never is.
     */
    method HandleSubmit(engine: Combat.GameEngine) returns (aborted: bool)
      requires engine.Valid()
      modifies this`feedback, engine`attackAnimationPlaying, engine`pending
      ensures engine.Valid()
      ensures old(challenge).None? ==>
                !aborted && feedback == old(feedback) && engine.pending == old(engine.pending)
      ensures old(challenge).Some? ==>
                var correct := IsCorrect(old(challenge).value, selectedOption, userAnswer);
                && aborted == correct
                && feedback == Some(MakeFeedback(old(challenge).value, correct))
                && engine.attackAnimationPlaying
                && engine.pending == if old(engine.attackAnimationPlaying) then old(engine.pending)
                                     else if correct then Combat.PlayerStrikeDue
                                     else Combat.EnemyStrikeDue
    {
      if challenge.None? {
        return false;
      }
      var c := challenge.value;
      var correct := IsCorrect(c, selectedOption, userAnswer);
      feedback := Some(MakeFeedback(c, correct));
      if correct {
        var enemyDefeated := engine.PlayerAttack();
        aborted := true;
      } else {
        var playerDefeated := engine.EnemyAttack();
        aborted := false;
      }
    }
  }

  lemma BlankKeysOfExample()
    ensures BlankKey(" X") == BlankKey("x") && BlankKey("y ") == BlankKey(" Y")
  {
    assert Remove(" X", IsJsSpace) == "X";
    assert Remove("x", IsJsSpace) == "x";
    assert Remove("y ", IsJsSpace) == "y";
    assert Remove(" Y", IsJsSpace) == "Y";
  }

  /** Two blanks typed with spacing and case of one's own are accepted for the expected answer "x, Y". */
  lemma TwoBlanksAccepted(c: Challenge)
    requires c.kind == FillInBlank && c.answer == "x, Y"
    ensures IsCorrect(c, None, Join([" X", "y "], CommaSpace))
  {
    var blanks := [" X", "y "];
    var raw := Split(c.answer, Comma);
    assert raw == ["x", " Y"] by {
      SplitAtFirst("x", ',', " Y");
      SplitWithoutSeparator(" Y", ',');
      assert "x, Y" == "x" + [','] + " Y";
    }
    assert forall i :: 0 <= i < |blanks| ==> ',' !in blanks[i] by {
      assert ',' !in blanks[0] && ',' !in blanks[1];
    }
    assert forall i :: 0 <= i < |blanks| ==> BlankKey(blanks[i]) == BlankKey(raw[i]) by {
      BlankKeysOfExample();
      forall i | 0 <= i < |blanks|
        ensures BlankKey(blanks[i]) == BlankKey(raw[i])
      {
        if i == 0 {
          assert BlankKey(blanks[0]) == BlankKey(raw[0]);
        } else {
          assert BlankKey(blanks[1]) == BlankKey(raw[1]);
        }
      }
    }
    FilledBlanksJudged(c, None, blanks);
  }

  /** Filling both blanks of a two-blank challenge in the form produces that accepted answer. */
  method AnswerTwoBlanks() {
    var form := new AnswerForm();
    var c := Challenge(FillInBlank, "x, Y", None, Some(Blank + Blank));
    form.LoadChallenge(c);
    assert (Blank + Blank)[..5] == Blank && (Blank + Blank)[5..] == Blank;
    assert Blank[..5] == Blank && Blank[5..] == [];
    assert Occurrences(Blank, Blank) == 1;
    assert BlankCount(Blank + Blank) == 2;
    assert form.blankAnswers == ["", ""];
    form.HandleBlankChange(0, " X");
    form.HandleBlankChange(1, "y ");
    assert form.blankAnswers == [" X", "y "];
    TwoBlanksAccepted(c);
    assert IsCorrect(c, None, form.userAnswer);
  }
}
