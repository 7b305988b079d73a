/** Redacting a secret from the runner's errors, and bounding their messages. */
module Redaction {
  import opened Basics

  datatype RunnerError =
    | Cancelled
    | InvalidRequest(message: string)
    | FileSystem(operation: string, path: string, source: string)
    | Process(message: string)
    | ServerUnavailable(message: string)
    | Server(message: string)
    | Cleanup(message: string)

  const MARK: string := "<redacted>"

  /** Replace the occurrences of a secret found from left to right, each search
      going on behind the last occurrence found. */
  function Replace(text: string, secret: string, mark: string): string
    requires secret != ""
    decreases |text|
  {
    if text == "" then ""
    else if secret <= text then mark + Replace(text[|secret|..], secret, mark)
    else [text[0]] + Replace(text[1..], secret, mark)
  }

  function Redact(error: RunnerError, secret: string): RunnerError {
    if secret == "" then error
    else
      match error
      case InvalidRequest(message) => InvalidRequest(Replace(message, secret, MARK))
      case Process(message) => Process(Replace(message, secret, MARK))
      case ServerUnavailable(message) => ServerUnavailable(Replace(message, secret, MARK))
      case Server(message) => Server(Replace(message, secret, MARK))
      case Cleanup(message) => Cleanup(Replace(message, secret, MARK))
      case Cancelled => error
      case FileSystem(_, _, _) => error
  }

  /** The variant of an error and the message that redaction works on, if any. */
  function Parts(error: RunnerError): (string, Option<string>) {
    match error
    case Cancelled => ("Cancelled", None)
    case InvalidRequest(message) => ("InvalidRequest", Some(message))
    case FileSystem(_, _, _) => ("FileSystem", None)
    case Process(message) => ("Process", Some(message))
    case ServerUnavailable(message) => ("ServerUnavailable", Some(message))
    case Server(message) => ("Server", Some(message))
    case Cleanup(message) => ("Cleanup", Some(message))
  }

  predicate HasMessage(error: RunnerError) {
    !error.Cancelled? && !error.FileSystem?
  }

  // ----- occurrences

  /** An occurrence, letter by letter. */
  lemma OccursByLetter(text: string, part: string, k: nat)
    ensures OccursAt(text, part, k) <==>
            k + |part| <= |text| && forall i :: 0 <= i < |part| ==> text[k + i] == part[i]
  {
    if k + |part| <= |text| && forall i :: 0 <= i < |part| ==> text[k + i] == part[i] {
      assert text[k..k + |part|] == part;
    }
    if OccursAt(text, part, k) {
      forall i | 0 <= i < |part| ensures text[k + i] == part[i] {
        assert text[k..k + |part|][i] == text[k + i];
      }
    }
  }

  lemma OccursInSlice(text: string, part: string, lo: nat, hi: nat, k: nat)
    requires lo <= hi <= |text|
    ensures OccursAt(text[lo..hi], part, k) <==> OccursAt(text, part, lo + k) && lo + k + |part| <= hi
  {
    OccursByLetter(text[lo..hi], part, k);
    OccursByLetter(text, part, lo + k);
  }

  lemma OccursBehind(text: string, part: string, n: nat, k: nat)
    requires n <= |text|
    ensures OccursAt(text[n..], part, k) <==> OccursAt(text, part, n + k)
  {
    assert text[n..] == text[n..|text|];
    OccursInSlice(text, part, n, |text|, k);
  }

  lemma OccursBehindFront(front: string, text: string, part: string, k: nat)
    ensures OccursAt(text, part, k) <==> OccursAt(front + text, part, |front| + k)
  {
    assert (front + text)[|front|..] == text;
    OccursBehind(front + text, part, |front|, k);
  }

  /** The first occurrence of part in text is at k. */
  ghost predicate FirstAt(text: string, part: string, k: nat) {
    OccursAt(text, part, k) && forall j: nat :: j < k ==> !OccursAt(text, part, j)
  }

  lemma {:induction false} FirstOccurrence(text: string, part: string, k: nat) returns (first: nat)
    requires OccursAt(text, part, k)
    ensures FirstAt(text, part, first) && first <= k
    decreases k
  {
    if j: nat :| j < k && OccursAt(text, part, j) {
      first := FirstOccurrence(text, part, j);
    } else {
      first := k;
    }
  }

  lemma FirstAtBehind(text: string, part: string, k: nat)
    requires k > 0 && FirstAt(text, part, k)
    ensures text != "" && FirstAt(text[1..], part, k - 1)
  {
    OccursBehind(text, part, 1, k - 1);
    forall j: nat | j < k - 1 ensures !OccursAt(text[1..], part, j) {
      OccursBehind(text, part, 1, j);
    }
  }

  lemma FirstInPrefix(text: string, part: string, k: nat, n: nat)
    requires FirstAt(text, part, k) && k + |part| <= n <= |text|
    ensures FirstAt(text[..n], part, k)
  {
    assert text[..n] == text[0..n];
    forall j: nat | j <= k ensures OccursAt(text[..n], part, j) <==> OccursAt(text, part, j) {
      OccursInSlice(text, part, 0, n, j);
    }
  }

  // ----- leftmost replacement

  /** A text without the secret is left alone. */
  lemma {:induction false} NothingToReplace(text: string, secret: string, mark: string)
    requires secret != "" && !Contains(text, secret)
    ensures Replace(text, secret, mark) == text
    decreases |text|
  {
    if text != "" {
      assert !OccursAt(text, secret, 0);
      forall j ensures !OccursAt(text[1..], secret, j) {
        OccursBehind(text, secret, 1, j);
      }
      NothingToReplace(text[1..], secret, mark);
    }
  }

  lemma PutInFront(text: string, k: nat, tail: string)
    requires 0 < k <= |text|
    ensures [text[0]] + (text[1..][..k - 1] + tail) == text[..k] + tail
  {
  }

  /** The first occurrence is replaced, and the rest behind it is searched. */
  lemma {:induction false} ReplaceFirst(text: string, secret: string, mark: string, k: nat)
    requires secret != "" && FirstAt(text, secret, k)
    ensures Replace(text, secret, mark) == text[..k] + (mark + Replace(text[k + |secret|..], secret, mark))
    decreases |text|
  {
    if k == 0 {
      assert text[..|secret|] == secret;
    } else {
      assert !OccursAt(text, secret, 0);
      FirstAtBehind(text, secret, k);
      ReplaceFirst(text[1..], secret, mark, k - 1);
      assert text[1..][k - 1 + |secret|..] == text[k + |secret|..];
      var tail := mark + Replace(text[k + |secret|..], secret, mark);
      assert Replace(text[1..], secret, mark) == text[1..][..k - 1] + tail;
      PutInFront(text, k, tail);
    }
  }

  // ----- which secrets can be found in a redacted text

  /** The secret begins with an end of the mark. */
  ghost predicate BeginsWithMarkEnd(secret: string, mark: string) {
    exists j: nat :: j < |mark| && mark[j..] <= secret
  }

  /** The secret ends, from a on, with a beginning of the mark, and a text made
      of the same words before it keeps them: in it the secret comes first at a. */
  ghost predicate EndsWithMarkBegin(secret: string, mark: string) {
    exists a: nat :: 0 < a < |secret| && secret[a..] <= mark && FirstAt(secret[..a] + secret, secret, a)
  }

  /** The secret lies inside the mark, covers it, or overlaps one of its ends. */
  ghost predicate CanReappear(secret: string, mark: string) {
    || Contains(mark, secret) || Contains(secret, mark)
    || BeginsWithMarkEnd(secret, mark) || EndsWithMarkBegin(secret, mark)
  }

  /** How a secret at the start of a text that begins with other words and then
      the mark overlaps the mark. */
  lemma OverlapAtStart(front: string, mark: string, rest: string, secret: string)
    requires front != "" && |front| < |secret| && secret <= front + (mark + rest)
    ensures secret[..|front|] == front
    ensures Contains(secret, mark) || secret[|front|..] <= mark
  {
    var r, a := front + (mark + rest), |front|;
    assert secret[..a] == r[..|secret|][..a] == front;
    if |secret| - a >= |mark| {
      assert secret[a..a + |mark|] == r[a..a + |mark|] == mark;
      assert OccursAt(secret, mark, a);
    } else {
      assert secret[a..] == r[a..|secret|] == mark[..|secret| - a];
    }
  }

  /** A beginning that ends before the change is a beginning of the old text. */
  lemma BeginningBeforeChange(text: string, secret: string, tail: string, a: nat)
    requires a <= |text| && secret <= text[..a] + tail
    ensures |secret| <= a ==> OccursAt(text, secret, 0)
  {
    var r := text[..a] + tail;
    if |secret| <= a {
      assert text[..|secret|] == r[..|secret|];
    }
  }

  /** A redacted text begins with the secret only if the secret can reappear, or
      the text itself began with it. */
  lemma NewAtStart(text: string, secret: string, mark: string)
    requires secret != "" && !OccursAt(text, secret, 0) && secret <= Replace(text, secret, mark)
    ensures Contains(secret, mark) || EndsWithMarkBegin(secret, mark)
  {
    if k: nat :| OccursAt(text, secret, k) {
      var a := FirstOccurrence(text, secret, k);
      ReplaceFirst(text, secret, mark, a);
      NewAcrossMark(text, secret, mark, a, Replace(text[a + |secret|..], secret, mark));
    } else {
      NothingToReplace(text, secret, mark);
    }
  }

  lemma NewAcrossMark(text: string, secret: string, mark: string, a: nat, rest: string)
    requires secret != "" && !OccursAt(text, secret, 0) && FirstAt(text, secret, a)
    requires secret <= text[..a] + (mark + rest)
    ensures Contains(secret, mark) || EndsWithMarkBegin(secret, mark)
  {
    BeginningBeforeChange(text, secret, mark + rest, a);
    OverlapAtStart(text[..a], mark, rest, secret);
    FirstInPrefix(text, secret, a, a + |secret|);
    assert text[..a + |secret|] == text[..a] + secret;
  }

  lemma NewInMark(mark: string, rest: string, secret: string, k: nat)
    requires k < |mark| && OccursAt(mark + rest, secret, k)
    ensures Contains(mark, secret) || BeginsWithMarkEnd(secret, mark)
  {
    var r := mark + rest;
    if k + |secret| <= |mark| {
      assert mark[k..k + |secret|] == r[k..k + |secret|];
      assert OccursAt(mark, secret, k);
    } else {
      assert secret[..|mark| - k] == r[k..k + |secret|][..|mark| - k] == mark[k..];
    }
  }

  /** No redacted text contains a secret that cannot reappear. */
  lemma {:induction false} StaysOut(text: string, secret: string, mark: string, k: nat)
    requires secret != "" && OccursAt(Replace(text, secret, mark), secret, k)
    ensures CanReappear(secret, mark)
    decreases |text|
  {
    if text != "" {
      if secret <= text {
        var rest := Replace(text[|secret|..], secret, mark);
        if k < |mark| {
          NewInMark(mark, rest, secret, k);
        } else {
          OccursBehindFront(mark, rest, secret, k - |mark|);
          StaysOut(text[|secret|..], secret, mark, k - |mark|);
        }
      } else if k == 0 {
        NewAtStart(text, secret, mark);
      } else {
        OccursBehindFront([text[0]], Replace(text[1..], secret, mark), secret, k - 1);
        StaysOut(text[1..], secret, mark, k - 1);
      }
    }
  }

  lemma ReappearsInMark(secret: string, mark: string) returns (text: string)
    requires secret != "" && Contains(mark, secret)
    ensures Contains(Replace(text, secret, mark), secret)
  {
    text := secret;
    assert text[|secret|..] == "";
    assert Replace(text, secret, mark) == mark;
  }

  lemma TooShort(text: string, secret: string, mark: string)
    requires |text| < |secret|
    ensures Replace(text, secret, mark) == text
  {
    NothingToReplace(text, secret, mark);
  }

  lemma SeenBehindMark(secret: string, mark: string, j: nat)
    requires j < |mark| && mark[j..] <= secret
    ensures OccursAt(mark + secret[|mark| - j..], secret, j)
  {
    var seen := mark + secret[|mark| - j..];
    assert seen[j..j + |secret|] == mark[j..] + secret[|mark| - j..] == secret;
  }

  lemma ReappearsBehindMark(secret: string, mark: string, j: nat) returns (text: string)
    requires j < |mark| && mark[j..] <= secret
    ensures secret != "" && Contains(Replace(text, secret, mark), secret)
  {
    var rest := secret[|mark| - j..];
    text := secret + rest;
    assert text[|secret|..] == rest;
    TooShort(rest, secret, mark);
    assert secret <= text;
    assert Replace(text, secret, mark) == mark + rest;
    SeenBehindMark(secret, mark, j);
  }

  lemma ReappearsAroundMark(secret: string, mark: string, a: nat) returns (text: string)
    requires mark != "" && FirstAt(secret, mark, a)
    ensures secret != "" && Contains(Replace(text, secret, mark), secret)
  {
    var front, b := secret[..a], secret[a + |mark|..];
    text := front + (secret + b);
    OccursBehindFront(front, secret + b, secret, 0);
    assert (secret + b)[..|secret|] == secret;
    forall p: nat | p < a ensures !OccursAt(text, secret, p) {
      EarlierCopyHasEarlierMark(secret, mark, a, b, p);
    }
    ReplaceFirst(text, secret, mark, a);
    TooShort(b, secret, mark);
    assert text[..a] == front && text[a + |secret|..] == b;
    assert front + (mark + b) == secret;
    assert OccursAt(secret, secret, 0);
  }

  lemma EarlierCopyHasEarlierMark(secret: string, mark: string, a: nat, b: string, p: nat)
    requires OccursAt(secret, mark, a) && p < a
    ensures OccursAt(secret[..a] + (secret + b), secret, p) ==> OccursAt(secret, mark, p)
  {
    var text := secret[..a] + (secret + b);
    OccursByLetter(text, secret, p);
    OccursByLetter(secret, mark, a);
    OccursByLetter(secret, mark, p);
    if OccursAt(text, secret, p) {
      forall i | 0 <= i < |mark| ensures secret[p + i] == mark[i] {
        assert text[p + (a + i)] == secret[a + i];
      }
    }
  }

  lemma ReappearsBeforeMark(secret: string, mark: string, a: nat) returns (text: string)
    requires 0 < a < |secret| && secret[a..] <= mark && FirstAt(secret[..a] + secret, secret, a)
    ensures Contains(Replace(text, secret, mark), secret)
  {
    text := secret[..a] + secret;
    ReplaceFirst(text, secret, mark, a);
    assert text[..a] == secret[..a] && text[a + |secret|..] == "";
    var r := Replace(text, secret, mark);
    assert r == secret[..a] + mark;
    assert r[..|secret|] == secret[..a] + secret[a..] == secret;
    assert OccursAt(r, secret, 0);
  }

  lemma Reappears(secret: string, mark: string) returns (text: string)
    requires secret != "" && mark != "" && CanReappear(secret, mark)
    ensures Contains(Replace(text, secret, mark), secret)
  {
    if Contains(mark, secret) {
      text := ReappearsInMark(secret, mark);
    } else if BeginsWithMarkEnd(secret, mark) {
      var j: nat :| j < |mark| && mark[j..] <= secret;
      text := ReappearsBehindMark(secret, mark, j);
    } else if Contains(secret, mark) {
      var k: nat :| OccursAt(secret, mark, k);
      var a := FirstOccurrence(secret, mark, k);
      text := ReappearsAroundMark(secret, mark, a);
    } else {
      var a: nat :| 0 < a < |secret| && secret[a..] <= mark && FirstAt(secret[..a] + secret, secret, a);
      text := ReappearsBeforeMark(secret, mark, a);
    }
  }

  /** Every text is free of the secret once redacted. */
  ghost predicate AlwaysClean(secret: string, mark: string)
    requires secret != ""
  {
    forall text :: !Contains(Replace(text, secret, mark), secret)
  }

  /** Redaction keeps a secret out of every text exactly when the secret cannot
      reappear around the mark. */
  lemma RedactionIsSafeExactly(secret: string, mark: string)
    requires secret != "" && mark != ""
    ensures AlwaysClean(secret, mark) <==> !CanReappear(secret, mark)
  {
    forall text | Contains(Replace(text, secret, mark), secret) ensures CanReappear(secret, mark) {
      var k: nat :| OccursAt(Replace(text, secret, mark), secret, k);
      StaysOut(text, secret, mark, k);
    }
    if CanReappear(secret, mark) {
      var text := Reappears(secret, mark);
      assert Contains(Replace(text, secret, mark), secret);
    }
  }

  // ----- plain secrets

  /** Overlapping an end of the mark means sharing its outermost letter. */
  lemma OverlapSharesEnd(secret: string, mark: string)
    requires mark != ""
    ensures Contains(secret, mark) || EndsWithMarkBegin(secret, mark) ==> mark[0] in secret
    ensures BeginsWithMarkEnd(secret, mark) ==> mark[|mark| - 1] in secret
  {
    if k: nat :| OccursAt(secret, mark, k) {
      OccursByLetter(secret, mark, k);
      assert secret[k + 0] == mark[0];
    } else if a: nat :| 0 < a < |secret| && secret[a..] <= mark && FirstAt(secret[..a] + secret, secret, a) {
      assert secret[a] == secret[a..][0] == mark[0];
    }
    if j: nat :| j < |mark| && mark[j..] <= secret {
      assert mark[j..][|mark| - 1 - j] == mark[|mark| - 1] == secret[|mark| - 1 - j];
    }
  }

  lemma InsideMeansInWord(secret: string, word: string, k: nat)
    requires secret != "" && OccursAt("<" + word + ">", secret, k)
    ensures '<' in secret || '>' in secret || Contains(word, secret)
  {
    var mark := "<" + word + ">";
    OccursByLetter(mark, secret, k);
    if k == 0 {
      assert secret[0] == mark[0];
    } else if k + |secret| == |mark| {
      assert secret[|secret| - 1] == mark[k + (|secret| - 1)];
    } else {
      OccursInSlice(mark, secret, 1, |mark| - 1, k - 1);
      assert mark[1..|mark| - 1] == word;
    }
  }

  /** Without the two brackets around a word, a secret can only reappear inside
      the word. */
  lemma PlainSecrets(secret: string, word: string)
    requires secret != "" && '<' !in secret && '>' !in secret
    ensures CanReappear(secret, "<" + word + ">") <==> Contains(word, secret)
  {
    var mark := "<" + word + ">";
    OverlapSharesEnd(secret, mark);
    if k: nat :| OccursAt(mark, secret, k) {
      InsideMeansInWord(secret, word, k);
    }
    if k: nat :| OccursAt(word, secret, k) {
      OccursInSlice(mark, secret, 1, |mark| - 1, k);
      assert mark[1..|mark| - 1] == word;
    }
  }

  lemma MarkIsBracketedWord()
    ensures MARK == "<" + "redacted" + ">"
  {
  }

  /** The message of every redacted error is free of the secret. */
  ghost predicate ErrorsAreClean(secret: string) {
    forall error :: HasMessage(error) ==> HasMessage(Redact(error, secret)) && !Contains(Redact(error, secret).message, secret)
  }

  lemma ErrorsAreTexts(secret: string)
    requires secret != ""
    ensures ErrorsAreClean(secret) <==> AlwaysClean(secret, MARK)
  {
    if ErrorsAreClean(secret) {
      forall text ensures !Contains(Replace(text, secret, MARK), secret) {
        assert HasMessage(Process(text)) && Redact(Process(text), secret) == Process(Replace(text, secret, MARK));
      }
    }
    if AlwaysClean(secret, MARK) {
      forall error | HasMessage(error) ensures !Contains(Redact(error, secret).message, secret) {
        assert Redact(error, secret).message == Replace(error.message, secret, MARK);
      }
    }
  }

  /** The messages of redacted errors are free of a plain secret exactly when the
      secret is no part of the mark's word. */
  lemma RedactedErrorsAreClean(secret: string)
    requires secret != "" && '<' !in secret && '>' !in secret
    ensures ErrorsAreClean(secret) <==> !Contains("redacted", secret)
  {
    MarkIsBracketedWord();
    PlainSecrets(secret, "redacted");
    RedactionIsSafeExactly(secret, MARK);
    ErrorsAreTexts(secret);
  }

  /** Redaction keeps the variant and replaces the secret in the message, of every
      variant that has one; other errors, and an empty secret, change nothing. */
  lemma RedactExactly(error: RunnerError, secret: string)
    ensures Parts(Redact(error, secret)).0 == Parts(error).0
    ensures var (before, after) := (Parts(error).1, Parts(Redact(error, secret)).1);
            if secret == "" || before.None? then Redact(error, secret) == error
            else after == Some(Replace(before.value, secret, "<redacted>"))
  {
  }

  /** Redacting again changes nothing once the message is free of the secret. */
  lemma RedactingTwice(error: RunnerError, secret: string)
    requires ErrorsAreClean(secret)
    ensures Redact(Redact(error, secret), secret) == Redact(error, secret)
  {
    if secret != "" && HasMessage(error) {
      NothingToReplace(Redact(error, secret).message, secret, MARK);
    }
  }

  /** With a bracket in the secret redaction can fail: here it makes the secret. */
  lemma BracketSecretReappears()
    ensures Redact(Process("aa<"), "a<") == Process("a<redacted>")
    ensures Contains("a<redacted>", "a<")
  {
    var text, secret := "aa<", "a<";
    assert text[1..] == secret && text[1] != secret[1];
    assert secret[2..] == "" && Replace("", secret, MARK) == "";
    assert Replace(secret, secret, MARK) == MARK + "";
    assert OccursAt("a<redacted>", "a<", 0);
  }

  // ----- bounding

  /** At most a number of characters, the last one an ellipsis if some are cut. */
  method BoundedMessage(message: string, maxChars: nat) returns (bounded: string)
    ensures |message| <= maxChars ==> bounded == message
    ensures |message| > maxChars ==>
              |bounded| == (if maxChars > 0 then maxChars else 1) && bounded[|bounded| - 1] == '…'
              && bounded[..|bounded| - 1] <= message
    ensures forall secret :: '…' !in secret && secret != "" && !Contains(message, secret) ==> !Contains(bounded, secret)
  {
    if |message| <= maxChars {
      return message;
    }
    var kept := message[..if maxChars > 0 then maxChars - 1 else 0];
    bounded := kept + ['…'];
    forall secret, k: nat | '…' !in secret && secret != "" && OccursAt(bounded, secret, k)
      ensures OccursAt(message, secret, k)
    {
      CutShowsNothingNew(message, |kept|, secret, k);
    }
  }

  lemma CutShowsNothingNew(message: string, n: nat, secret: string, k: nat)
    requires n <= |message| && '…' !in secret && OccursAt(message[..n] + ['…'], secret, k) && secret != ""
    ensures OccursAt(message, secret, k)
  {
    var bounded := message[..n] + ['…'];
    OccursByLetter(bounded, secret, k);
    OccursByLetter(message, secret, k);
    assert bounded[n] == '…';
    assert k + |secret| == n + 1 ==> secret[|secret| - 1] == bounded[k + (|secret| - 1)];
  }
}
