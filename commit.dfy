/** The confirmation step (`confirm_commit`), the status printed after a
    commit (`perform_commit`) and the manual command printed when the user
    declines (`main`). Typed answers are an input sequence; the commit itself
    is not modelled. */
module Commit {
  import opened Text
  import Synthesis

  datatype Option<T> = None | Some(value: T)

  /** How one typed answer is read. */
  datatype Answer = Accept | Decline | AskAgain

  /** The answer as compared: surrounding whitespace removed, lower-cased. */
  function Normalize(raw: string): string
  {
    Lower(Strip(raw))
  }

  /** How `confirm_commit` reads a normalised answer: "", "y" and "yes"
      accept; "n" and "no" decline; anything else asks again. */
  function ReadAnswer(token: string): Answer
  {
    if token == "" || token == "y" || token == "yes" then Accept
    else if token == "n" || token == "no" then Decline
    else AskAgain
  }

  /** One answer typed at the `[Y/n]` prompt, as the loop reads it. */
  function Classify(raw: string): Answer
  {
    ReadAnswer(Normalize(raw))
  }

  /** `a` equals `b` when case is ignored. */
  predicate SameIgnoringCase(a: string, b: string)
  {
    |a| == |b| && forall i :: 0 <= i < |a| ==> LowerChar(a[i]) == LowerChar(b[i])
  }

  lemma LowerMatches(x: string, t: string)
    requires Lower(t) == t
    ensures Lower(x) == t <==> SameIgnoringCase(x, t)
  {
    if SameIgnoringCase(x, t) {
      assert forall i :: 0 <= i < |x| ==> Lower(x)[i] == t[i] by {
        forall i | 0 <= i < |x| ensures Lower(x)[i] == t[i] {
          assert LowerChar(t[i]) == Lower(t)[i];
        }
      }
    }
    if Lower(x) == t {
      forall i | 0 <= i < |x| ensures LowerChar(x[i]) == LowerChar(t[i]) {
        assert Lower(t)[i] == t[i];
      }
    }
  }

  lemma LowerOfTokens()
    ensures Lower("y") == "y" && Lower("yes") == "yes"
    ensures Lower("n") == "n" && Lower("no") == "no"
  {
  }

  /** Exactly the answers that are empty after stripping, or are "y" or "yes"
      in any letter case, accept. */
  lemma AcceptsExactly(raw: string)
    ensures Classify(raw) == Accept <==>
              var t := Strip(raw);
              t == "" || SameIgnoringCase(t, "y") || SameIgnoringCase(t, "yes")
  {
    var t := Strip(raw);
    var n := Lower(t);
    assert Classify(raw) == ReadAnswer(n);
    assert ReadAnswer(n) == Accept <==> n == "" || n == "y" || n == "yes";
    assert n == "" <==> t == "";
    LowerOfTokens();
    LowerMatches(t, "y");
    LowerMatches(t, "yes");
  }

  /** Exactly the answers that are "n" or "no" in any letter case, once
      stripped, decline. */
  lemma DeclinesExactly(raw: string)
    ensures Classify(raw) == Decline <==>
              var t := Strip(raw);
              SameIgnoringCase(t, "n") || SameIgnoringCase(t, "no")
  {
    var t := Strip(raw);
    var n := Lower(t);
    assert Classify(raw) == ReadAnswer(n);
    assert ReadAnswer(n) == Decline <==> n == "n" || n == "no";
    LowerOfTokens();
    LowerMatches(t, "n");
    LowerMatches(t, "no");
  }

  lemma LowerIdempotent(s: string)
    ensures Lower(Lower(s)) == Lower(s)
  {
  }

  /** The reading of an answer depends neither on whitespace around it nor on
      the case of its letters. */
  lemma ClassifyIgnoresPaddingAndCase(p: string, raw: string, q: string)
    requires AllSpace(p) && AllSpace(q)
    ensures Classify(p + raw + q) == Classify(raw)
    ensures Classify(Lower(raw)) == Classify(raw)
  {
    StripPadding(p, raw, q);
    LowerStripCommute(raw);
    LowerIdempotent(Strip(raw));
  }

  /** The prompt's default: pressing Enter alone accepts. */
  lemma BlankAnswerAccepts(raw: string)
    requires AllSpace(raw)
    ensures Classify(raw) == Accept
  {
    StripPadding(raw, [], []);
    assert raw + [] + [] == raw;
  }

  /** The decision reached on a series of read answers: that of the first
      one that accepts or declines, or none if there is no such answer. */
  function Decide(answers: seq<Answer>): Option<bool>
  {
    if answers == [] then None
    else match answers[0]
      case Accept => Some(true)
      case Decline => Some(false)
      case AskAgain => Decide(answers[1..])
  }

  /** `f` applied to each element of `s`, in order. */
  function MapSeq<A, B>(f: A -> B, s: seq<A>): (r: seq<B>)
    ensures |r| == |s|
  {
    if s == [] then [] else [f(s[0])] + MapSeq(f, s[1..])
  }

  lemma {:induction false} MapSeqAt<A, B>(f: A -> B, s: seq<A>, i: nat)
    requires i < |s|
    ensures MapSeq(f, s)[i] == f(s[i])
    decreases i
  {
    if i > 0 {
      MapSeqAt(f, s[1..], i - 1);
    }
  }

  lemma {:induction false} MapSeqAppend<A, B>(f: A -> B, a: seq<A>, b: seq<A>)
    ensures MapSeq(f, a + b) == MapSeq(f, a) + MapSeq(f, b)
    decreases |a|
  {
    if a == [] {
      assert a + b == b;
    } else {
      assert (a + b)[0] == a[0];
      assert (a + b)[1..] == a[1..] + b;
      MapSeqAppend(f, a[1..], b);
    }
  }

  /** The typed answers, as read one by one. */
  function Answers(inputs: seq<string>): seq<Answer>
  {
    MapSeq(Classify, inputs)
  }

  /** The decision `confirm_commit` reaches on the typed answers `inputs`. */
  function FirstDecision(inputs: seq<string>): Option<bool>
  {
    Decide(Answers(inputs))
  }

  /** Answers that are asked again do not influence the decision. */
  lemma {:induction false} DecideSkipsRetries(retries: seq<Answer>, rest: seq<Answer>)
    requires forall j :: 0 <= j < |retries| ==> retries[j] == AskAgain
    ensures Decide(retries + rest) == Decide(rest)
    decreases |retries|
  {
    if retries == [] {
      assert retries + rest == rest;
    } else {
      assert (retries + rest)[1..] == retries[1..] + rest;
      DecideSkipsRetries(retries[1..], rest);
    }
  }

  /** Once a decision is reached, later answers are never looked at. */
  lemma {:induction false} DecideIgnoresLater(answers: seq<Answer>, later: seq<Answer>)
    requires Decide(answers).Some?
    ensures Decide(answers + later) == Decide(answers)
    decreases |answers|
  {
    assert (answers + later)[0] == answers[0];
    if answers[0] == AskAgain {
      assert (answers + later)[1..] == answers[1..] + later;
      DecideIgnoresLater(answers[1..], later);
    }
  }

  /** On typed input: answers that are asked again do not matter, and once a
      decision is reached later input is never read. */
  lemma FirstDecisionOfInputs(first: seq<string>, later: seq<string>)
    ensures (forall j :: 0 <= j < |first| ==> Classify(first[j]) == AskAgain) ==>
              FirstDecision(first + later) == FirstDecision(later)
    ensures FirstDecision(first).Some? ==>
              FirstDecision(first + later) == FirstDecision(first)
  {
    MapSeqAppend(Classify, first, later);
    if forall j :: 0 <= j < |first| ==> Classify(first[j]) == AskAgain {
      forall j | 0 <= j < |first| ensures Answers(first)[j] == AskAgain {
        MapSeqAt(Classify, first, j);
      }
      DecideSkipsRetries(Answers(first), Answers(later));
    }
    if FirstDecision(first).Some? {
      DecideIgnoresLater(Answers(first), Answers(later));
    }
  }

  /** `confirm_commit`: reads answers until one accepts or declines. Returns
      the decision (none when the input ends, where `input()` raises and the
      tool exits with status 1) and how many answers were read; every answer
      read before the last was asked again. */
  method ConfirmCommit(inputs: seq<string>) returns (decision: Option<bool>, read: nat)
    ensures decision == FirstDecision(inputs)
    ensures read <= |inputs|
    ensures forall j :: 0 <= j < read && (decision.None? || j < read - 1) ==> Classify(inputs[j]) == AskAgain
    ensures decision.None? ==> read == |inputs|
    ensures decision.Some? ==>
              0 < read && Classify(inputs[read - 1]) == (if decision.value then Accept else Decline)
  {
    read := 0;
    while true
      invariant read <= |inputs|
      invariant forall j :: 0 <= j < read ==> Classify(inputs[j]) == AskAgain
      invariant Decide(Answers(inputs[read..])) == FirstDecision(inputs)
      decreases |inputs| - read
    {
      if read == |inputs| {
        return None, read;
      }
      var answer := Classify(inputs[read]);
      assert inputs[read..][1..] == inputs[read + 1..];
      assert Answers(inputs[read..]) == [answer] + Answers(inputs[read + 1..]);
      read := read + 1;
      if answer == Accept {
        return Some(true), read;
      } else if answer == Decline {
        return Some(false), read;
      }
    }
  }

  // ---------------------------------------------------------------- status lines

  /** The abbreviated commit id shown after a commit: its first 8 characters. */
  const HashLength: nat := 8

  const StatusHead: string := "Commit successful ["

  /** The success status of `perform_commit`, with the abbreviated commit id
      between brackets. */
  function CommitStatus(hexsha: string): (status: string)
    ensures |status| == |StatusHead| + Min(HashLength, |hexsha|) + 1
    ensures status[..|StatusHead|] == StatusHead
    ensures status[|StatusHead|..|status| - 1] == hexsha[..Min(HashLength, |hexsha|)]
    ensures status[|status| - 1] == ']'
  {
    var short := Take(hexsha, HashLength);
    var status := StatusHead + short + "]";
    assert status[|StatusHead|..|status| - 1] == short;
    status
  }

  /** The command printed by `main` when the commit is declined. */
  function ManualCommand(message: string): string
  {
    " Manual: git commit -m \"" + message + "\"\n"
  }

  /** A message without double quotes is the one quoted argument of the
      manual command: splitting the command at its double quotes gives the
      text before it, the message and the line end. */
  lemma {:induction false} ManualCommandSplits(m: string)
    requires '"' !in m
    ensures SplitOn(ManualCommand(m), '"') == [" Manual: git commit -m ", m, "\n"]
  {
    var head := " Manual: git commit -m ";
    var parts := [head, m, "\n"];
    assert Join(parts, "\"") == ManualCommand(m) by {
      assert parts[1..][1..] == ["\n"];
      assert Join(parts[1..][1..], "\"") == "\n";
    }
    SplitOnJoin(parts, '"');
  }

  /** A sanitised message holds no double quote, so the printed manual
      command quotes it exactly. */
  lemma ManualCommandQuotesMessage(reply: string)
    ensures var m := Synthesis.Sanitize(reply);
            SplitOn(ManualCommand(m), '"') == [" Manual: git commit -m ", m, "\n"]
  {
    var m := Synthesis.Sanitize(reply);
    assert '"' !in m by {
      forall i | 0 <= i < |m| ensures m[i] != '"' {
        assert !Synthesis.IsQuote(m[i]);
      }
    }
    ManualCommandSplits(m);
  }
}
