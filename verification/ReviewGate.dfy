/**
  The review prompt between an export and the host: which sequences of answers lead to apply.
 */
module ReviewGate {
  import opened PathCodec
  import opened HostTree
  import opened Manifest
  import opened Sorting
  import opened Ledger
  import opened SimpleUpdate
  import opened Transaction
  import opened Outcome
  import opened ChangeApply
  import EventDerivation

  const MASS_DELETION_MIN_FILES: nat := 5
  const MASS_DELETION_PERCENT: nat := 25
  const MASS_DELETION_ABSOLUTE_FILES: nat := 50
  const USIZE_MAX: nat := 0xFFFF_FFFF_FFFF_FFFF

  // ---------------------------------------------------------------------------------------------
  // Risk
  // ---------------------------------------------------------------------------------------------

  function SaturatingMul(a: nat, b: nat): nat {
    if a * b > USIZE_MAX then USIZE_MAX else a * b
  }

  predicate IsMassDeletion(deleted: nat, baselineFiles: nat) {
    && deleted > 0
    && baselineFiles > 0
    && (|| deleted == baselineFiles
        || deleted >= MASS_DELETION_ABSOLUTE_FILES
        || (deleted >= MASS_DELETION_MIN_FILES
            && SaturatingMul(deleted, 100) >= SaturatingMul(baselineFiles, MASS_DELETION_PERCENT)))
  }

  /** Everything, or at least 50 files, or at least five files and a quarter of the baseline. */
  predicate MeansMassDeletion(deleted: nat, baselineFiles: nat) {
    deleted > 0 && baselineFiles > 0
    && (deleted == baselineFiles || deleted >= 50 || (deleted >= 5 && deleted * 4 >= baselineFiles))
  }

  /** Saturation never changes the answer. */
  lemma SaturationIsHarmless(deleted: nat, baselineFiles: nat)
    ensures IsMassDeletion(deleted, baselineFiles) <==> MeansMassDeletion(deleted, baselineFiles)
  {
    if deleted < MASS_DELETION_ABSOLUTE_FILES {
      assert SaturatingMul(deleted, 100) == deleted * 100;
      assert baselineFiles * MASS_DELETION_PERCENT > USIZE_MAX ==> baselineFiles > deleted * 4;
    }
  }

  /** Deleting more of the same baseline never makes it less of a mass deletion. */
  lemma MassDeletionIsMonotone(deleted: nat, more: nat, baselineFiles: nat)
    requires deleted <= more <= baselineFiles && IsMassDeletion(deleted, baselineFiles)
    ensures IsMassDeletion(more, baselineFiles)
  {
    SaturationIsHarmless(deleted, baselineFiles);
    SaturationIsHarmless(more, baselineFiles);
  }

  datatype ChangeRisk = ChangeRisk(added: nat, modified: nat, deleted: nat, baselineFiles: nat, massDeletion: bool)

  method AssessChangeRisk(changes: seq<ChangeRecord>, baselineFiles: nat) returns (risk: ChangeRisk)
    ensures risk.added == CountRecords(changes, Added) == |Positions(changes, Added)|
    ensures risk.modified == CountRecords(changes, Modified) == |Positions(changes, Modified)|
    ensures risk.deleted == CountRecords(changes, Deleted) == |Positions(changes, Deleted)|
    ensures risk.baselineFiles == baselineFiles
    ensures risk.massDeletion <==> MeansMassDeletion(risk.deleted, baselineFiles)
  {
    var added, modified, deleted := 0, 0, 0;
    for i := 0 to |changes|
      invariant added == CountRecords(changes[..i], Added)
      invariant modified == CountRecords(changes[..i], Modified)
      invariant deleted == CountRecords(changes[..i], Deleted)
    {
      assert changes[..i + 1][..i] == changes[..i];
      match changes[i].kind {
        case Added => added := added + 1;
        case Modified => modified := modified + 1;
        case Deleted => deleted := deleted + 1;
      }
    }
    assert changes[..|changes|] == changes;
    CountIsPositions(changes, Added);
    CountIsPositions(changes, Modified);
    CountIsPositions(changes, Deleted);
    SaturationIsHarmless(deleted, baselineFiles);
    risk := ChangeRisk(added, modified, deleted, baselineFiles, IsMassDeletion(deleted, baselineFiles));
  }

  // ---------------------------------------------------------------------------------------------
  // The typed confirmation
  // ---------------------------------------------------------------------------------------------

  function Digits(n: nat): (s: string)
    ensures s != [] && forall i :: 0 <= i < |s| ==> '0' <= s[i] <= '9'
  {
    if n < 10 then [('0' as int + n) as char] else Digits(n / 10) + [('0' as int + n % 10) as char]
  }

  lemma {:induction false} DigitsDenote(n: nat)
    ensures EventDerivation.Decimal(Digits(n)) == n
  {
    if n >= 10 {
      DigitsDenote(n / 10);
      var d := Digits(n / 10);
      assert Digits(n)[..|Digits(n)| - 1] == d;
    } else {
      assert EventDerivation.Decimal([]) == 0;
      assert Digits(n)[..0] == [];
    }
  }

  function Phrase(risk: ChangeRisk): string {
    "DELETE " + Digits(risk.deleted) + " " + (if risk.deleted == 1 then "FILE" else "FILES") + " OF " + Digits(risk.baselineFiles)
  }

  /** The decimal numeral of a number. */
  ghost predicate IsNumeral(s: string, n: nat) {
    && s != [] && (forall i :: 0 <= i < |s| ==> '0' <= s[i] <= '9')
    && EventDerivation.Decimal(s) == n && (s[0] == '0' ==> |s| == 1)
  }

  lemma {:induction false} DigitsAreNumeral(n: nat)
    ensures IsNumeral(Digits(n), n) && (n > 0 ==> Digits(n)[0] != '0')
  {
    DigitsDenote(n);
    if n >= 10 {
      DigitsAreNumeral(n / 10);
      assert Digits(n)[0] == Digits(n / 10)[0];
    }
  }

  /** The text that confirms a deletion: how many files, out of how many. */
  ghost predicate IsConfirmation(text: string, deleted: nat, baselineFiles: nat) {
    exists d, b :: IsNumeral(d, deleted) && IsNumeral(b, baselineFiles)
                   && text == "DELETE " + d + " " + (if deleted == 1 then "FILE" else "FILES") + " OF " + b
  }

  lemma PhraseConfirms(risk: ChangeRisk)
    ensures IsConfirmation(Phrase(risk), risk.deleted, risk.baselineFiles)
  {
    hide Digits, IsNumeral;
    DigitsAreNumeral(risk.deleted);
    DigitsAreNumeral(risk.baselineFiles);
    var d, b := Digits(risk.deleted), Digits(risk.baselineFiles);
    assert Phrase(risk) == "DELETE " + d + " " + (if risk.deleted == 1 then "FILE" else "FILES") + " OF " + b;
  }

  lemma FirstSpace(a: string, x: string, b: string, y: string)
    requires a + " " + x == b + " " + y && ' ' !in a
    ensures |a| <= |b|
  {
    var s := b + " " + y;
    assert s[|b|] == ' ';
    if |b| < |a| {
      assert false;
    }
  }

  lemma SplitAtSpace(a: string, x: string, b: string, y: string)
    requires a + " " + x == b + " " + y && ' ' !in a && ' ' !in b
    ensures a == b && x == y
  {
    FirstSpace(a, x, b, y);
    FirstSpace(b, y, a, x);
    var s := a + " " + x;
    assert s[..|a|] == a && s[..|b|] == b;
    assert s[|a| + 1..] == x && s[|b| + 1..] == y;
  }

  function AfterNumber(risk: ChangeRisk): string {
    (if risk.deleted == 1 then "FILE" else "FILES") + " OF " + Digits(risk.baselineFiles)
  }

  lemma PhraseParts(risk: ChangeRisk)
    ensures Phrase(risk)[7..] == Digits(risk.deleted) + " " + AfterNumber(risk)
    ensures |Phrase(risk)| >= 7
  {
  }

  /** A phrase authorises one pair of numbers only: how many files go, and out of how many. */
  lemma PhraseIsSpecific(a: ChangeRisk, b: ChangeRisk)
    requires Phrase(a) == Phrase(b)
    ensures a.deleted == b.deleted && a.baselineFiles == b.baselineFiles
  {
    hide Digits, Phrase;
    PhraseParts(a);
    PhraseParts(b);
    SplitAtSpace(Digits(a.deleted), AfterNumber(a), Digits(b.deleted), AfterNumber(b));
    DigitsDenote(a.deleted);
    DigitsDenote(b.deleted);
    var n := if a.deleted == 1 then 8 else 9;
    assert AfterNumber(a)[n..] == Digits(a.baselineFiles);
    assert AfterNumber(b)[n..] == Digits(b.baselineFiles);
    DigitsDenote(a.baselineFiles);
    DigitsDenote(b.baselineFiles);
  }

  // ---------------------------------------------------------------------------------------------
  // The prompt
  // ---------------------------------------------------------------------------------------------

  datatype Command = ReviewDiff | ApplyChanges | KeepBundle | DiscardBundle | Unknown

  function LowerChar(c: char): char {
    if 'A' <= c <= 'Z' then (c as int + 32) as char else c
  }

  function Lower(s: string): (r: string)
    ensures |r| == |s|
    ensures forall i :: 0 <= i < |s| ==> if 'A' <= s[i] <= 'Z' then r[i] as int == s[i] as int + 32 else r[i] == s[i]
  {
    seq(|s|, i requires 0 <= i < |s| => LowerChar(s[i]))
  }

  function CommandOf(answer: string): Command {
    if answer == "r" || answer == "review" || answer == "diff" then ReviewDiff
    else if answer == "a" || answer == "apply" then ApplyChanges
    else if answer == "k" || answer == "keep" || answer == "" then KeepBundle
    else if answer == "d" || answer == "discard" then DiscardBundle
    else Unknown
  }

  ghost predicate IsReviewText(text: string) {
    text == "r" || text == "review" || text == "diff"
  }

  ghost predicate IsApplyText(text: string) {
    text == "a" || text == "apply"
  }

  ghost predicate IsKeepText(text: string) {
    text == "k" || text == "keep" || text == ""
  }

  ghost predicate IsDiscardText(text: string) {
    text == "d" || text == "discard"
  }

  lemma CommandMeans(text: string)
    ensures CommandOf(text) == ReviewDiff <==> IsReviewText(text)
    ensures CommandOf(text) == ApplyChanges <==> IsApplyText(text)
    ensures CommandOf(text) == KeepBundle <==> IsKeepText(text)
    ensures CommandOf(text) == DiscardBundle <==> IsDiscardText(text)
  {
  }

  /** Everything a review depends on. `lines` is what the terminal will ever deliver, `trim` how a line is
      trimmed, and `renders` says which attempts to show the diff succeed. */
  datatype Review = Review(lines: seq<string>, trim: string -> string, risk: ChangeRisk, applyAllowed: bool, renders: nat -> bool)

  /** What happened at the prompt, in order; `at` is the line that was read. */
  datatype Interaction = Answered(at: nat) | Typed(at: nat) | DiffShown | DiffFailed

  datatype Decision = Kept | Discarded | Proceed(allowDeletions: bool)

  /** How many lines were read. */
  function LinesRead(log: seq<Interaction>): nat {
    if log == [] then 0
    else LinesRead(log[..|log| - 1]) + (if log[|log| - 1].Answered? || log[|log| - 1].Typed? then 1 else 0)
  }

  /** How many times the diff was tried. */
  function DiffsTried(log: seq<Interaction>): nat {
    if log == [] then 0
    else DiffsTried(log[..|log| - 1]) + (if log[|log| - 1].DiffShown? || log[|log| - 1].DiffFailed? then 1 else 0)
  }

  ghost predicate EndsWithAnswer(log: seq<Interaction>, review: Review) {
    log != [] && log[|log| - 1].Answered? && log[|log| - 1].at < |review.lines|
  }

  /** The answer at the end of the log, trimmed and in lower case. */
  ghost function LastAnswer(log: seq<Interaction>, review: Review): string
    requires EndsWithAnswer(log, review)
  {
    Lower(review.trim(review.lines[log[|log| - 1].at]))
  }

  ghost predicate AsksForDiff(log: seq<Interaction>, review: Review) {
    EndsWithAnswer(log, review) && IsReviewText(LastAnswer(log, review))
  }

  ghost predicate EndsWithApply(log: seq<Interaction>, review: Review) {
    EndsWithAnswer(log, review) && IsApplyText(LastAnswer(log, review))
  }

  ghost predicate EndsWithKeep(log: seq<Interaction>, review: Review) {
    EndsWithAnswer(log, review) && IsKeepText(LastAnswer(log, review))
  }

  ghost predicate EndsWithDiscard(log: seq<Interaction>, review: Review) {
    EndsWithAnswer(log, review) && IsDiscardText(LastAnswer(log, review))
  }

  /** The log ends with an answer that asks to apply, where that is on offer: after a shown diff, if the
      deletion is mass. */
  ghost predicate MayApply(log: seq<Interaction>, review: Review) {
    EndsWithApply(log, review) && review.applyAllowed && (review.risk.massDeletion ==> DiffShown in log)
  }

  /** The log reads the lines one after the other: a diff follows each answer that asks for one, and a
      typed confirmation follows each answer that may apply and deletes. */
  ghost predicate IsDialogue(log: seq<Interaction>, review: Review) {
    log != [] ==>
      var front, last := log[..|log| - 1], log[|log| - 1];
      && IsDialogue(front, review)
      && Follows(front, last, review)
  }

  ghost predicate Follows(log: seq<Interaction>, step: Interaction, review: Review) {
    match step
    case DiffShown => AsksForDiff(log, review) && review.renders(DiffsTried(log))
    case DiffFailed => AsksForDiff(log, review) && !review.renders(DiffsTried(log))
    case Typed(at) => at == LinesRead(log) < |review.lines| && MayApply(log, review) && review.risk.deleted > 0
    case Answered(at) =>
      && at == LinesRead(log) < |review.lines|
      && !AsksForDiff(log, review) && !(MayApply(log, review) && review.risk.deleted > 0)
  }

  /** The dialogue that must precede an apply: its last command asks to apply, followed by the exact
      confirmation if anything is deleted; and a successful diff comes earlier if the deletion is mass. */
  ghost predicate Authorises(log: seq<Interaction>, review: Review) {
    if review.risk.deleted == 0 then MayApply(log, review)
    else
      && log != [] && log[|log| - 1].Typed? && log[|log| - 1].at < |review.lines|
      && MayApply(log[..|log| - 1], review)
      && IsConfirmation(review.trim(review.lines[log[|log| - 1].at]), review.risk.deleted, review.risk.baselineFiles)
  }

  ghost predicate IsFinal(log: seq<Interaction>, review: Review) {
    EndsWithKeep(log, review) || EndsWithDiscard(log, review) || Authorises(log, review)
  }

  /** Nothing up to here ends the review. */
  ghost predicate IsOpen(log: seq<Interaction>, review: Review) {
    forall k :: 0 <= k <= |log| ==> !IsFinal(log[..k], review)
  }

  /** A review has one dialogue: of two logs, the shorter begins the longer. */
  lemma {:induction false} DialogueIsDetermined(a: seq<Interaction>, b: seq<Interaction>, review: Review)
    requires IsDialogue(a, review) && IsDialogue(b, review) && |a| <= |b|
    ensures a == b[..|a|]
  {
    hide Follows;
    if |a| < |b| {
      DialogueIsDetermined(a, b[..|b| - 1], review);
      assert b[..|b| - 1][..|a|] == b[..|a|];
    } else if a != [] {
      var n := |a| - 1;
      DialogueIsDetermined(a[..n], b[..n], review);
      assert b[..n] == a[..n];
      StepIsDetermined(a[..n], a[n], b[n], review);
      assert a == a[..n] + [a[n]] && b == b[..n] + [b[n]];
    }
  }

  lemma StepIsDetermined(log: seq<Interaction>, a: Interaction, b: Interaction, review: Review)
    requires Follows(log, a, review) && Follows(log, b, review)
    ensures a == b
  {
    hide LinesRead, DiffsTried, IsReviewText, IsApplyText, Lower, LastAnswer;
    if EndsWithAnswer(log, review) {
      CommandMeans(LastAnswer(log, review));
    }
  }

  /** What the answers amount to. `tries` counts the attempts to show the diff so far. */
  function Decided(lines: seq<string>, trim: string -> string, risk: ChangeRisk, applyAllowed: bool,
                   renders: nat -> bool, tries: nat, reviewed: bool): Decision
  {
    if lines == [] then Kept
    else
      var rest := lines[1..];
      match CommandOf(Lower(trim(lines[0])))
      case ReviewDiff => Decided(rest, trim, risk, applyAllowed, renders, tries + 1, reviewed || renders(tries))
      case ApplyChanges =>
        if !applyAllowed || (risk.massDeletion && !reviewed) then Decided(rest, trim, risk, applyAllowed, renders, tries, reviewed)
        else if risk.deleted == 0 then Proceed(false)
        else if rest == [] then Kept
        else if trim(rest[0]) == Phrase(risk) then Proceed(true)
        else Decided(rest[1..], trim, risk, applyAllowed, renders, tries, reviewed)
      case KeepBundle => Kept
      case DiscardBundle => Discarded
      case Unknown => Decided(rest, trim, risk, applyAllowed, renders, tries, reviewed)
  }

  /** What the first line alone decides. */
  ghost predicate StartsRight(lines: seq<string>, trim: string -> string, risk: ChangeRisk, applyAllowed: bool, decision: Decision) {
    && (lines == [] ==> decision == Kept)
    && (lines != [] && IsKeepText(Lower(trim(lines[0]))) ==> decision == Kept)
    && (lines != [] && IsDiscardText(Lower(trim(lines[0]))) ==> decision == Discarded)
    && (lines != [] && IsApplyText(Lower(trim(lines[0]))) && applyAllowed && !risk.massDeletion && risk.deleted == 0 ==>
          decision == Proceed(false))
    && (lines != [] && IsApplyText(Lower(trim(lines[0]))) && applyAllowed && !risk.massDeletion && risk.deleted > 0 ==>
          (|lines| > 1 && trim(lines[1]) == Phrase(risk) ==> decision == Proceed(true)))
  }

  lemma FirstLine(lines: seq<string>, trim: string -> string, risk: ChangeRisk, applyAllowed: bool, renders: nat -> bool)
    ensures StartsRight(lines, trim, risk, applyAllowed, Decided(lines, trim, risk, applyAllowed, renders, 0, false))
  {
    hide CommandOf, Lower, Phrase;
    if lines != [] {
      CommandMeans(Lower(trim(lines[0])));
      assert |lines| > 1 ==> lines[1..][0] == lines[1];
    }
  }

  // What one more step of the log does to what is said of it.

  lemma StartOfLog(review: Review)
    ensures IsDialogue([], review) && LinesRead([]) == 0 && DiffsTried([]) == 0 && IsOpen([], review)
    ensures !AsksForDiff([], review) && !MayApply([], review)
  {
  }

  lemma Push(log: seq<Interaction>, step: Interaction, review: Review)
    requires IsDialogue(log, review) && Follows(log, step, review)
    ensures var longer := log + [step];
            && IsDialogue(longer, review) && longer[..|longer| - 1] == log
            && LinesRead(longer) == LinesRead(log) + (if step.Answered? || step.Typed? then 1 else 0)
            && DiffsTried(longer) == DiffsTried(log) + (if step.Answered? || step.Typed? then 0 else 1)
            && (!step.Answered? ==> !EndsWithAnswer(longer, review))
            && (step.Answered? ==>
                  EndsWithAnswer(longer, review) && LastAnswer(longer, review) == Lower(review.trim(review.lines[step.at])))
  {
    hide Follows;
    assert (log + [step])[..|log|] == log;
    assert step.Answered? || step.Typed? ==> step.at < |review.lines| by { StepReadsLine(log, step, review); }
  }

  lemma StepReadsLine(log: seq<Interaction>, step: Interaction, review: Review)
    requires Follows(log, step, review)
    ensures step.Answered? || step.Typed? ==> step.at == LinesRead(log) < |review.lines|
  {
  }

  lemma PushOpen(log: seq<Interaction>, step: Interaction, review: Review)
    requires IsOpen(log, review) && !IsFinal(log + [step], review)
    ensures IsOpen(log + [step], review)
  {
    hide IsFinal;
    var longer := log + [step];
    forall k | 0 <= k <= |longer| ensures !IsFinal(longer[..k], review) {
      assert if k <= |log| then longer[..k] == log[..k] else longer[..k] == longer;
    }
  }

  lemma OpenIsNotFinal(log: seq<Interaction>, review: Review)
    requires IsOpen(log, review)
    ensures !IsFinal(log, review) && (log != [] ==> IsOpen(log[..|log| - 1], review))
  {
    hide IsFinal;
    assert log[..|log|] == log;
    if log != [] {
      var front := log[..|log| - 1];
      forall k | 0 <= k <= |front| ensures !IsFinal(front[..k], review) {
        assert front[..k] == log[..k];
      }
    }
  }

  lemma AtTheEnd(trim: string -> string, risk: ChangeRisk, applyAllowed: bool, renders: nat -> bool, tries: nat, reviewed: bool)
    ensures Decided([], trim, risk, applyAllowed, renders, tries, reviewed) == Kept
  {
  }

  /** Only this phrase confirms. */
  lemma ConfirmationIsPhrase(text: string, risk: ChangeRisk)
    ensures IsConfirmation(text, risk.deleted, risk.baselineFiles) <==> text == Phrase(risk)
  {
    hide Digits, IsNumeral;
    PhraseConfirms(risk);
    if IsConfirmation(text, risk.deleted, risk.baselineFiles) {
      var d, b :| IsNumeral(d, risk.deleted) && IsNumeral(b, risk.baselineFiles)
                  && text == "DELETE " + d + " " + (if risk.deleted == 1 then "FILE" else "FILES") + " OF " + b;
      NumeralIsUnique(d, risk.deleted);
      NumeralIsUnique(b, risk.baselineFiles);
    }
  }

  lemma {:induction false} NumeralIsUnique(s: string, n: nat)
    requires IsNumeral(s, n)
    ensures s == Digits(n)
  {
    var k := |s| - 1;
    if k == 0 {
      assert EventDerivation.Decimal(s[..0]) == 0;
    } else {
      assert s[..k][0] == s[0];
      assert IsNumeral(s[..k], n / 10);
      NumeralIsUnique(s[..k], n / 10);
      LeadingDigit(s[..k]);
    }
  }

  lemma {:induction false} LeadingDigit(s: string)
    requires s != [] && (forall i :: 0 <= i < |s| ==> '0' <= s[i] <= '9') && s[0] != '0'
    ensures EventDerivation.Decimal(s) > 0
  {
    if |s| > 1 {
      LeadingDigit(s[..|s| - 1]);
    } else {
      assert EventDerivation.Decimal(s[..0]) == 0;
    }
  }

  /** One command of the decision. */
  lemma DecidedStep(lines: seq<string>, next: nat, trim: string -> string, risk: ChangeRisk, applyAllowed: bool,
                    renders: nat -> bool, tries: nat, reviewed: bool)
    requires next < |lines|
    ensures var command := CommandOf(Lower(trim(lines[next])));
            var decision := Decided(lines[next..], trim, risk, applyAllowed, renders, tries, reviewed);
            && (command == KeepBundle ==> decision == Kept)
            && (command == DiscardBundle ==> decision == Discarded)
            && (command == ReviewDiff ==>
                  decision == Decided(lines[next + 1..], trim, risk, applyAllowed, renders, tries + 1, reviewed || renders(tries)))
            && (command == Unknown || (command == ApplyChanges && (!applyAllowed || (risk.massDeletion && !reviewed))) ==>
                  decision == Decided(lines[next + 1..], trim, risk, applyAllowed, renders, tries, reviewed))
            && (command == ApplyChanges && applyAllowed && (risk.massDeletion ==> reviewed) ==>
                  if risk.deleted == 0 then decision == Proceed(false)
                  else if next + 1 == |lines| then decision == Kept
                  else if trim(lines[next + 1]) == Phrase(risk) then decision == Proceed(true)
                  else decision == Decided(lines[next + 2..], trim, risk, applyAllowed, renders, tries, reviewed))
  {
    hide CommandOf, Lower, Phrase;
    var here := lines[next..];
    assert here[1..] == lines[next + 1..] && here[0] == lines[next];
    if next + 1 < |lines| {
      assert here[1..][0] == lines[next + 1] && here[1..][1..] == lines[next + 2..];
    }
  }

  /** Read answers until one of them ends the review. */
  method Prompt(lines: seq<string>, trim: string -> string, risk: ChangeRisk, applyAllowed: bool, renders: nat -> bool)
    returns (decision: Decision, ghost log: seq<Interaction>)
    ensures decision == Decided(lines, trim, risk, applyAllowed, renders, 0, false)
    ensures StartsRight(lines, trim, risk, applyAllowed, decision)
    ensures var review := Review(lines, trim, risk, applyAllowed, renders);
            && IsDialogue(log, review)
            && (log != [] ==> IsOpen(log[..|log| - 1], review))
            && (decision.Proceed? <==> Authorises(log, review))
            && (decision.Discarded? <==> EndsWithDiscard(log, review))
            && (decision.Kept? ==> EndsWithKeep(log, review) || LinesRead(log) == |lines|)
    ensures decision.Proceed? ==> applyAllowed && decision.allowDeletions == (risk.deleted > 0)
  {
    hide Phrase, CommandOf, Lower, IsConfirmation, StartsRight, IsReviewText, IsApplyText, IsKeepText, IsDiscardText;
    hide Decided, IsDialogue, LinesRead, DiffsTried, IsOpen, LastAnswer, EndsWithAnswer;
    FirstLine(lines, trim, risk, applyAllowed, renders);
    ghost var review := Review(lines, trim, risk, applyAllowed, renders);
    log := [];
    StartOfLog(review);
    var reviewed, next, tries := false, 0, 0;
    assert lines[0..] == lines;
    while next < |lines|
      invariant next <= |lines| && LinesRead(log) == next && DiffsTried(log) == tries
      invariant reviewed <==> DiffShown in log
      invariant IsDialogue(log, review) && IsOpen(log, review)
      invariant next < |lines| ==> Follows(log, Answered(next), review)
      invariant Decided(lines[next..], trim, risk, applyAllowed, renders, tries, reviewed)
                == Decided(lines, trim, risk, applyAllowed, renders, 0, false)
      decreases |lines| - next
    {
      DecidedStep(lines, next, trim, risk, applyAllowed, renders, tries, reviewed);
      CommandMeans(Lower(trim(lines[next])));
      Push(log, Answered(next), review);
      var command := CommandOf(Lower(trim(lines[next])));
      ghost var before := log;
      log := log + [Answered(next)];
      next := next + 1;
      match command {
        case ReviewDiff =>
          PushOpen(before, Answered(next - 1), review);
          var shown := renders(tries);
          ghost var step := if shown then DiffShown else DiffFailed;
          Push(log, step, review);
          PushOpen(log, step, review);
          log := log + [step];
          if shown {
            reviewed := true;
          }
          tries := tries + 1;
        case ApplyChanges =>
          if applyAllowed && !(risk.massDeletion && !reviewed) {
            if risk.deleted == 0 {
              return Proceed(false), log;
            }
            PushOpen(before, Answered(next - 1), review);
            AtTheEnd(trim, risk, applyAllowed, renders, tries, reviewed);
            assert next == |lines| ==> lines[next..] == [];
            if next < |lines| {
              ghost var asked := log;
              Push(log, Typed(next), review);
              ConfirmationIsPhrase(trim(lines[next]), risk);
              log := log + [Typed(next)];
              next := next + 1;
              if trim(lines[next - 1]) == Phrase(risk) {
                return Proceed(true), log;
              }
              PushOpen(asked, Typed(next - 1), review);
            }
          } else {
            PushOpen(before, Answered(next - 1), review);
          }
        case KeepBundle => return Kept, log;
        case DiscardBundle => return Discarded, log;
        case Unknown => PushOpen(before, Answered(next - 1), review);
      }
    }
    decision := Kept;
    OpenIsNotFinal(log, review);
    assert lines[next..] == [];
    AtTheEnd(trim, risk, applyAllowed, renders, tries, reviewed);
  }

  datatype ReviewOutcome = NothingToReview | Pending | Thrown | Ran(result: Result<ApplyReport>)

  /** `review_and_apply_changes`: the host is touched only by an authorised apply, and that apply
      never asks for an authorisation that the prompt did not give. */
  method ReviewAndApply(host: Host, baseline: AuditManifest, files: Tree, manifest: ChangeManifest,
                        lines: seq<string>, trim: string -> string, renders: nat -> bool, interactive: bool,
                        sourceIsSafe: bool, exportIsSafe: bool)
    returns (outcome: ReviewOutcome, ghost log: seq<Interaction>, ghost risk: ChangeRisk)
    requires host.Valid()
    modifies host
    ensures host.Valid()
    ensures !outcome.Ran? ==> host.tree == old(host.tree) && host.trace == old(host.trace)
    ensures outcome.Ran? ==> interactive && manifest.rejected == []
    ensures var review := Review(lines, trim, risk, manifest.rejected == [], renders);
            if !interactive then !outcome.Ran? && !outcome.Thrown?
            else if manifest.changes == [] && manifest.rejected == [] then outcome.NothingToReview?
            else
              && IsDialogue(log, review)
              && (log != [] ==> IsOpen(log[..|log| - 1], review))
              && (outcome.Ran? <==> Authorises(log, review))
              && (outcome.Thrown? <==> EndsWithDiscard(log, review))
              && (outcome.Pending? ==> EndsWithKeep(log, review) || LinesRead(log) == |lines|)
    ensures var first := if lines == [] then "" else Lower(trim(lines[0]));
            interactive && (manifest.changes != [] || manifest.rejected != []) ==>
              (IsKeepText(first) ==> outcome.Pending?) && (IsDiscardText(first) ==> outcome.Thrown?)
    ensures outcome.Ran? ==> risk.deleted == CountRecords(manifest.changes, Deleted)
                             && risk.baselineFiles == |baseline.included|
                             && (risk.massDeletion <==> MeansMassDeletion(risk.deleted, risk.baselineFiles))
    // What ran is the apply, with its result.
    ensures outcome.Ran? && outcome.result.Ok? ==>
              && IsSoundManifest(baseline, manifest) && PassesChecks(old(host.tree), files, baseline, manifest)
              && outcome.result.value.added == risk.added && outcome.result.value.modified == risk.modified
              && outcome.result.value.deleted == risk.deleted
              && IsApplied(old(host.tree), host.tree, StepsOf(files, Plan(manifest)))
              && (TargetsDiffer(manifest) ==> IsCarriedOut(old(host.tree), host.tree, files, manifest))
    ensures outcome.Ran? && outcome.result.Err?
            && !outcome.result.error.RollbackIncomplete? && !outcome.result.error.AppliedButCleanupFailed? ==>
              IsRestored(old(host.tree), host.tree)
    ensures outcome.Ran? && host.faults == old(host.faults) && host.lucky && DistinctTargets(Plan(manifest)) ==>
              (outcome.result.Ok? <==> CanApply(old(host.tree), files, baseline, manifest, true, sourceIsSafe && exportIsSafe))
    ensures outcome.Ran? && outcome.result.Err? ==>
              !outcome.result.error.DeletionAuthorizationRequired? && !outcome.result.error.RejectedOutput?
    ensures outcome.Ran? <==> interactive && manifest.changes != [] && manifest.rejected == []
                              && Decided(lines, trim, risk, true, renders, 0, false).Proceed?
  {
    hide Acceptable, AllClear, Plan, StepsOf, IsApplied, Preserved, SafeSince, IsRestored, IsAppliedUpToSlots, Positions, PassesChecks,
      IsSoundManifest, IsCarriedOut, TargetsDiffer, TrustedParents, DistinctTargets;
    hide Authorises, IsDialogue, IsOpen, LinesRead, EndsWithDiscard, EndsWithKeep, IsKeepText, IsDiscardText, Lower;
    log := [];
    var assessed := AssessChangeRisk(manifest.changes, |baseline.included|);
    risk := assessed;
    if manifest.changes == [] && manifest.rejected == [] {
      return NothingToReview, log, risk;
    }
    if !interactive {
      return Pending, log, risk;
    }
    var decision;
    CommandMeans("");
    decision, log := Prompt(lines, trim, assessed, manifest.rejected == [], renders);
    match decision {
      case Kept => outcome := Pending;
      case Discarded => outcome := Thrown;
      case Proceed(allowDeletions) =>
        assert CountKind(Plan(manifest), Deleted) == CountRecords(manifest.changes, Deleted) by {
          DeletedInPlan(manifest);
        }
        ghost var commit;
        var r;
        r, commit := ApplyExportedChanges(host, baseline, files, manifest, allowDeletions, sourceIsSafe, exportIsSafe);
        outcome := Ran(r);
    }
  }

  lemma DeletedInPlan(manifest: ChangeManifest)
    ensures CountKind(Plan(manifest), Deleted) == CountRecords(manifest.changes, Deleted)
  {
    CountOfPlan(manifest.changes, Deleted);
  }
}
