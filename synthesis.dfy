/** The commit-message synthesiser of `generate_ai_commit_message`: the prompt
    sent to the language model, the clean-up of the model's reply, and the
    status shown when the call fails. The call itself is not modelled: its
    reply is an input. */
module Synthesis {
  import opened Text

  /** Only this many characters of the staged diff go into the prompt. */
  const DiffLimit: nat := 1500

  /** Only this many characters of an exception's text are shown. */
  const ErrorLimit: nat := 50

  // ---------------------------------------------------------------- prompt

  const PromptHead: string :=
    "\nCreate a concise and professional commit message based on the following changes:\n\nFILES:\n"

  const PromptMiddle: string := "\n\nDIFF:\n"

  const PromptTail: string :=
    "\n\nFORMAT: [type]: [short description]\n"
    + "TYPES: feat, fix, docs, style, refactor, test, chore\n"
    + "MAX: 60 characters\n"
    + "LANGUAGE: English\n\n"
    + "EXAMPLES:\n"
    + "- feat: add login system\n"
    + "- fix: resolve validation bug\n"
    + "- docs: update readme\n\n"
    + "RETURN ONLY THE COMMIT MESSAGE:\n"

  /** The prompt line that names one staged file. */
  function Bullet(file: string): string
  {
    "- " + file
  }

  function Bullets(files: seq<string>): seq<string>
  {
    seq(|files|, i requires 0 <= i < |files| => Bullet(files[i]))
  }

  /** The FILES section: one bullet line per staged file, joined by newlines. */
  function FileBlock(files: seq<string>): string
  {
    Join(Bullets(files), "\n")
  }

  /** The prompt text: fixed head, the file block, a fixed middle, the first
      `DiffLimit` characters of the diff, and a fixed tail. */
  function Prompt(files: seq<string>, diff: string): string
  {
    PromptHead + FileBlock(files) + PromptMiddle + Take(diff, DiffLimit) + PromptTail
  }

  /** Where the DIFF section starts in the prompt. */
  function DiffStart(files: seq<string>): nat
  {
    |PromptHead| + |FileBlock(files)| + |PromptMiddle|
  }

  /** The DIFF section of the prompt is exactly the first min(1500, |diff|)
      characters of the diff; it is followed only by the fixed tail. */
  lemma PromptDiffSection(files: seq<string>, diff: string)
    ensures var p := Prompt(files, diff);
            DiffStart(files) + Min(DiffLimit, |diff|) + |PromptTail| == |p|
            && p[DiffStart(files)..|p| - |PromptTail|] == diff[..Min(DiffLimit, |diff|)]
            && p[|p| - |PromptTail|..] == PromptTail
  {
    var p := Prompt(files, diff);
    var t := Take(diff, DiffLimit);
    var before := PromptHead + FileBlock(files) + PromptMiddle;
    assert p == before + t + PromptTail;
    assert p[|before|..|before| + |t|] == t;
  }

  /** Characters of the diff beyond the first 1500 never reach the prompt. */
  lemma PromptIgnoresDiffTail(files: seq<string>, diff: string, more: string)
    requires |diff| >= DiffLimit
    ensures Prompt(files, diff + more) == Prompt(files, diff)
  {
    assert (diff + more)[..DiffLimit] == diff[..DiffLimit];
  }

  /** Read back line by line, the FILES section of the prompt holds one
      `- <file>` line per staged file, in staging order. (File names come
      from a line-split listing, so none contains a newline.) */
  lemma PromptFileSection(files: seq<string>, diff: string)
    requires files != []
    requires forall i :: 0 <= i < |files| ==> '\n' !in files[i]
    ensures var p := Prompt(files, diff);
            var lines := SplitOn(p[|PromptHead|..|PromptHead| + |FileBlock(files)|], '\n');
            |lines| == |files| && forall i :: 0 <= i < |files| ==> lines[i] == "- " + files[i]
  {
    var p := Prompt(files, diff);
    var b := Bullets(files);
    forall k | 0 <= k < |b| ensures '\n' !in b[k] {
      assert b[k] == "- " + files[k];
    }
    assert p[|PromptHead|..|PromptHead| + |FileBlock(files)|] == FileBlock(files);
    SplitOnJoin(b, '\n');
  }

  // ---------------------------------------------------------------- sanitiser

  predicate IsQuote(c: char)
  {
    c == '"' || c == '\''
  }

  predicate NoQuotes(s: string)
  {
    forall i :: 0 <= i < |s| ==> !IsQuote(s[i])
  }

  /** `s.replace(c, '')`: every `c` deleted, every other character kept. */
  function Delete(s: string, c: char): (r: string)
    ensures |r| <= |s|
    ensures forall i :: 0 <= i < |r| ==> r[i] != c && r[i] in s
  {
    if s == [] then []
    else (if s[0] == c then [] else [s[0]]) + Delete(s[1..], c)
  }

  /** `.replace('"', '').replace("'", '')`. */
  function RemoveQuotes(s: string): (r: string)
    ensures NoQuotes(r)
  {
    Delete(Delete(s, '"'), '\'')
  }

  /** Reference reading of quote removal: the characters of `s` that are not
      quotes, in their original order, each as often as in `s`. */
  function Unquoted(s: string): (r: string)
    ensures NoQuotes(r)
  {
    if s == [] then [] else (if IsQuote(s[0]) then [] else [s[0]]) + Unquoted(s[1..])
  }

  /** Filtering keeps every character that is not a quote as often as it
      occurs. */
  lemma {:induction false} UnquotedKeepsCounts(s: string, d: char)
    requires !IsQuote(d)
    ensures multiset(Unquoted(s))[d] == multiset(s)[d]
  {
    if s != [] {
      assert s == [s[0]] + s[1..];
      UnquotedKeepsCounts(s[1..], d);
    }
  }

  /** The reply clean-up of `generate_ai_commit_message`: strip surrounding
      whitespace, then delete every double and single quote. */
  function Sanitize(reply: string): (message: string)
    ensures NoQuotes(message)
    ensures |message| <= |reply|
  {
    RemoveQuotes(Strip(reply))
  }

  lemma {:induction false} DeleteAppend(a: string, b: string, c: char)
    ensures Delete(a + b, c) == Delete(a, c) + Delete(b, c)
    decreases |a|
  {
    if a == [] {
      assert a + b == b;
    } else {
      assert (a + b)[1..] == a[1..] + b;
      DeleteAppend(a[1..], b, c);
    }
  }

  /** The two-pass `replace` chain removes exactly the quotes and keeps the
      rest in order. */
  lemma {:induction false} RemoveQuotesIsUnquoted(s: string)
    ensures RemoveQuotes(s) == Unquoted(s)
    decreases |s|
  {
    if s != [] {
      var head := if s[0] == '"' then [] else [s[0]];
      assert Delete(s, '"') == head + Delete(s[1..], '"');
      DeleteAppend(head, Delete(s[1..], '"'), '\'');
      if head != [] { assert head[1..] == []; }
      RemoveQuotesIsUnquoted(s[1..]);
    }
  }

  /** The sanitised message is the stripped reply with its quotes filtered
      out: no other character is lost, added or moved. */
  lemma SanitizeKeepsOtherCharacters(reply: string)
    ensures Sanitize(reply) == Unquoted(Strip(reply))
  {
    RemoveQuotesIsUnquoted(Strip(reply));
  }

  lemma {:induction false} UnquotedOfNoQuotes(s: string)
    requires NoQuotes(s)
    ensures Unquoted(s) == s
    decreases |s|
  {
    if s != [] {
      assert !IsQuote(s[0]);
      UnquotedOfNoQuotes(s[1..]);
    }
  }

  /** Quote removal on its own is idempotent. */
  lemma RemoveQuotesIdempotent(s: string)
    ensures RemoveQuotes(RemoveQuotes(s)) == RemoveQuotes(s)
  {
    RemoveQuotesIsUnquoted(RemoveQuotes(s));
    UnquotedOfNoQuotes(RemoveQuotes(s));
  }

  /** The full sanitiser is idempotent on a reply exactly when its result has
      no whitespace at either end: removing quotes can expose whitespace that
      the earlier strip did not see. */
  lemma SanitizeIdempotentIff(reply: string)
    ensures var m := Sanitize(reply);
            Sanitize(m) == m <==> Trimmed(m)
  {
    var m := Sanitize(reply);
    var i, j := StripSlice(m);
    assert NoQuotes(Strip(m)) by {
      forall k | 0 <= k < |Strip(m)| ensures !IsQuote(Strip(m)[k]) {
        assert Strip(m)[k] == m[i + k];
      }
    }
    RemoveQuotesIsUnquoted(Strip(m));
    UnquotedOfNoQuotes(Strip(m));
    StripFixedIff(m);
  }

  lemma UnquotedQuotedSpace()
    ensures Unquoted("\" x\"") == " x"
  {
    var r := "\" x\"";
    assert r[1..] == " x\"";
    assert r[1..][1..] == "x\"";
    assert "x\""[1..] == "\"";
    assert Unquoted("\"") == [];
  }

  lemma SanitizeQuotedSpace()
    ensures Sanitize("\" x\"") == " x"
  {
    TrimmedIsFixed("\" x\"");
    UnquotedQuotedSpace();
    RemoveQuotesIsUnquoted("\" x\"");
  }

  lemma StripSpaceX()
    ensures Strip(" x") == "x"
  {
    assert " x"[1..] == "x";
    TrimmedIsFixed("x");
  }

  lemma SanitizeSpaceX()
    ensures Sanitize(" x") == "x"
  {
    StripSpaceX();
    RemoveQuotesIsUnquoted("x");
    UnquotedOfNoQuotes("x");
  }

  /** A reply for which sanitising twice differs from sanitising once: the
      quotes that hid a space from `strip()` are gone the second time. */
  lemma SanitizeNotIdempotent()
    ensures Sanitize("\" x\"") == " x"
    ensures Sanitize(Sanitize("\" x\"")) == "x"
  {
    SanitizeQuotedSpace();
    SanitizeSpaceX();
  }

  // ---------------------------------------------------------------- reply handling

  /** What the model call produced: no response object (or one whose text is
      missing), a response with its text, or an exception with its message. */
  datatype Reply = NoResponse | Response(text: string) | Raised(error: string)

  /** A drafted commit message, or the status line shown before exiting with 1. */
  datatype Outcome = Generated(message: string) | Failed(status: string)

  const NoMessageStatus: string := "AI failed to generate message"

  const ErrorStatusHead: string := "AI Error: "

  /** The status for an exception: its text cut to 50 characters, then "...". */
  function AiErrorStatus(error: string): (status: string)
    ensures |status| == |ErrorStatusHead| + Min(ErrorLimit, |error|) + 3
    ensures |status| <= |ErrorStatusHead| + ErrorLimit + 3
    ensures status[..|ErrorStatusHead|] == ErrorStatusHead
    ensures status[|ErrorStatusHead|..|status| - 3] == error[..Min(ErrorLimit, |error|)]
    ensures status[|status| - 3..] == "..."
  {
    var shown := Take(error, ErrorLimit);
    var status := ErrorStatusHead + shown + "...";
    assert status[|ErrorStatusHead|..|status| - 3] == shown;
    status
  }

  /** `generate_ai_commit_message` as written: an absent or empty reply text
      fails, an exception fails with its truncated text, any other reply is
      sanitised. */
  function Generate(reply: Reply): (o: Outcome)
    ensures o.Generated? <==> reply.Response? && reply.text != []
    ensures o.Generated? ==> NoQuotes(o.message) && o.message == Sanitize(reply.text)
    ensures reply.Raised? ==> o == Failed(AiErrorStatus(reply.error))
    ensures reply.NoResponse? || (reply.Response? && reply.text == []) ==> o == Failed(NoMessageStatus)
  {
    match reply
    case NoResponse => Failed(NoMessageStatus)
    case Response(text) => if text == [] then Failed(NoMessageStatus) else Generated(Sanitize(text))
    case Raised(error) => Failed(AiErrorStatus(error))
  }

  lemma {:induction false} UnquotedOfAllQuotes(s: string)
    requires forall i :: 0 <= i < |s| ==> IsQuote(s[i])
    ensures Unquoted(s) == []
    decreases |s|
  {
    if s != [] {
      assert IsQuote(s[0]);
      UnquotedOfAllQuotes(s[1..]);
    }
  }

  /** The emptiness test runs before sanitising, so a non-empty reply of only
      whitespace, or of only quotes, passes it and yields an empty commit
      message. */
  lemma BlankReplyGivesEmptyMessage(text: string)
    requires text != []
    requires AllSpace(text) || forall i :: 0 <= i < |text| ==> IsQuote(text[i])
    ensures Generate(Response(text)) == Generated("")
  {
    if AllSpace(text) {
      TrimStartAllSpace(text);
    } else {
      assert !IsSpace(text[0]) && !IsSpace(text[|text| - 1]) by {
        assert IsQuote(text[0]) && IsQuote(text[|text| - 1]);
      }
      TrimmedIsFixed(text);
      RemoveQuotesIsUnquoted(text);
      UnquotedOfAllQuotes(text);
    }
  }

  /** Reply handling as evidently intended: the emptiness test applies to the
      sanitised message, so a drafted message is never empty. */
  function GenerateNonEmpty(reply: Reply): (o: Outcome)
    ensures o.Generated? <==> reply.Response? && Sanitize(reply.text) != []
    ensures o.Generated? ==> o.message != [] && NoQuotes(o.message)
    ensures o.Generated? ==> Generate(reply) == o
    ensures Generate(reply).Generated? && Generate(reply).message != [] ==> o == Generate(reply)
  {
    match Generate(reply)
    case Generated(message) => if message == [] then Failed(NoMessageStatus) else Generated(message)
    case Failed(status) =>
      if reply.Response? then
        assert reply.text == [];
        assert Strip(reply.text) == [];
        Failed(status)
      else Failed(status)
  }
}
