/** What the tool prints about the staged files and the drafted message: the
    staged-file preview of `get_staged_changes` and the boxed message of
    `display_commit_message`, whose long messages are word-wrapped greedily.
    Printed output is modelled as the list of lines printed. */
module Display {
  import opened Text

  /** Width of the text column inside the message box. */
  const Width: nat := 56

  /** At most this many staged file names are listed. */
  const PreviewLimit: nat := 3

  // ---------------------------------------------------------------- padding

  function Spaces(n: nat): (r: string)
    ensures |r| == n && AllSpace(r)
  {
    seq(n, _ => ' ')
  }

  /** `f"{line:<width}"`: the line, then blanks up to `width` characters; a
      longer line is left as it is. */
  function PadRight(line: string, width: nat): (r: string)
    ensures |r| == if |line| < width then width else |line|
    ensures r[..|line|] == line
    ensures forall i :: |line| <= i < |r| ==> r[i] == ' '
  {
    if |line| < width then line + Spaces(width - |line|) else line
  }

  // ---------------------------------------------------------------- greedy wrapping

  /** The greedy packing that the wrapping loop performs. `line` holds the
      words of the line being filled and `words` those not yet placed. A word
      joins the line when the line, a blank and the word fit in `Width`;
      otherwise the line (if any) is finished and the word starts a new one. */
  function Pack(line: seq<string>, words: seq<string>): seq<seq<string>>
    decreases |words|
  {
    if words == [] then
      (if line == [] then [] else [line])
    else if |Unwords(line) + " " + words[0]| <= Width then
      Pack(line + [words[0]], words[1..])
    else
      (if line == [] then [] else [line]) + Pack([words[0]], words[1..])
  }

  /** The lines, as lists of words, that the loop builds from `words`. */
  function Wrap(words: seq<string>): seq<seq<string>>
  {
    Pack([], words)
  }

  /** Each line's words joined with single blanks. */
  function LinesOf(groups: seq<seq<string>>): (lines: seq<string>)
    ensures |lines| == |groups|
  {
    if groups == [] then [] else [Unwords(groups[0])] + LinesOf(groups[1..])
  }

  /** All the words of a list of lists, in order. */
  function Concat(groups: seq<seq<string>>): seq<string>
  {
    if groups == [] then [] else groups[0] + Concat(groups[1..])
  }

  /** The lines shown in the box for a message: the message itself when it fits
      in `Width`, otherwise its words wrapped greedily. */
  function ShownLines(message: string): seq<string>
  {
    if |message| > Width then LinesOf(Wrap(Words(message))) else [message]
  }

  // ---------------------------------------------------------------- the box

  const BoxTop: string :=
    "\n┌─ Commit Message ─────────────────────────────────────────┐"

  const BoxBottom: string :=
    "└──────────────────────────────────────────────────────────┘"

  /** One printed row of the box. */
  function BoxRow(line: string): string
  {
    "│ " + PadRight(line, Width) + " │"
  }

  function BoxRows(lines: seq<string>): seq<string>
  {
    seq(|lines|, k requires 0 <= k < |lines| => BoxRow(lines[k]))
  }

  /** The wrapping loop: packs the given words into lines exactly as the
      greedy specification `Wrap` does. */
  method WrapWords(words: seq<string>) returns (lines: seq<string>)
    requires AllWords(words)
    ensures lines == LinesOf(Wrap(words))
  {
    lines := [];
    var current := "";
    ghost var group: seq<string> := [];
    for i := 0 to |words|
      invariant current == Unwords(group)
      invariant AllWords(group)
      invariant current == "" <==> group == []
      invariant lines + LinesOf(Pack(group, words[i..])) == LinesOf(Wrap(words))
    {
      var word := words[i];
      ghost var rest := words[i + 1..];
      assert words[i..] == [word] + rest;
      if |current + " " + word| <= Width {
        PackExtend(group, word, rest);
        if current != "" {
          JoinSnoc(group, word, " ");
          current := current + " " + word;
        } else {
          current := word;
        }
        group := group + [word];
      } else {
        PackBreak(group, word, rest);
        if current != "" {
          LinesOfCons(group, Pack([word], rest));
          assert lines + LinesOf([group] + Pack([word], rest))
              == (lines + [current]) + LinesOf(Pack([word], rest));
          lines := lines + [current];
        } else {
          assert [] + Pack([word], rest) == Pack([word], rest);
        }
        current := word;
        group := [word];
      }
    }
    assert words[|words|..] == [];
    if current != "" {
      assert LinesOf([group]) == [current];
      lines := lines + [current];
    } else {
      assert lines + LinesOf([]) == lines;
    }
  }

  /** `display_commit_message`: the printed lines, from the top border to the
      bottom border. */
  method DisplayCommitMessage(message: string) returns (rows: seq<string>)
    ensures rows == [BoxTop] + BoxRows(ShownLines(message)) + [BoxBottom]
    ensures |message| <= Width ==> rows == [BoxTop, BoxRow(message), BoxBottom]
  {
    rows := [BoxTop];
    if |message| > Width {
      var lines := WrapWords(Words(message));
      for i := 0 to |lines|
        invariant rows == [BoxTop] + BoxRows(lines[..i])
      {
        assert BoxRows(lines[..i + 1]) == BoxRows(lines[..i]) + [BoxRow(lines[i])];
        rows := rows + [BoxRow(lines[i])];
      }
      assert lines[..|lines|] == lines;
    } else {
      rows := rows + [BoxRow(message)];
    }
    rows := rows + [BoxBottom];
  }

  // ---------------------------------------------------------------- lemmas about wrapping

  predicate AllWords(ws: seq<string>)
  {
    forall k :: 0 <= k < |ws| ==> IsWord(ws[k])
  }

  /** A line of the box: it has a word, and it is longer than `Width` only
      when it is a single word. */
  predicate LineOk(g: seq<string>)
  {
    g != [] && (|Unwords(g)| <= Width || |g| == 1)
  }

  /** No line could have taken the first word of the line after it. */
  predicate Greedy(gs: seq<seq<string>>)
  {
    forall k :: 1 <= k < |gs| ==> gs[k] != [] && |Unwords(gs[k - 1]) + " " + gs[k][0]| > Width
  }

  /** One step of the packing, on the first remaining word. */
  lemma PackStep(line: seq<string>, words: seq<string>)
    requires words != []
    ensures |Unwords(line) + " " + words[0]| <= Width ==>
              Pack(line, words) == Pack(line + [words[0]], words[1..])
    ensures |Unwords(line) + " " + words[0]| > Width ==>
              Pack(line, words) == (if line == [] then [] else [line]) + Pack([words[0]], words[1..])
  {
  }

  lemma PackExtend(line: seq<string>, word: string, rest: seq<string>)
    requires |Unwords(line) + " " + word| <= Width
    ensures Pack(line, [word] + rest) == Pack(line + [word], rest)
  {
    assert ([word] + rest)[1..] == rest;
  }

  lemma PackBreak(line: seq<string>, word: string, rest: seq<string>)
    requires |Unwords(line) + " " + word| > Width
    ensures Pack(line, [word] + rest) == (if line == [] then [] else [line]) + Pack([word], rest)
  {
    assert ([word] + rest)[1..] == rest;
  }

  lemma {:induction false} LinesOfAt(groups: seq<seq<string>>, k: nat)
    requires k < |groups|
    ensures LinesOf(groups)[k] == Unwords(groups[k])
  {
    if k > 0 {
      LinesOfAt(groups[1..], k - 1);
    }
  }

  lemma LinesOfCons(g: seq<string>, gs: seq<seq<string>>)
    ensures LinesOf([g] + gs) == [Unwords(g)] + LinesOf(gs)
  {
    assert ([g] + gs)[1..] == gs;
  }

  lemma ConcatCons(g: seq<string>, gs: seq<seq<string>>)
    ensures Concat([g] + gs) == g + Concat(gs)
  {
    assert ([g] + gs)[1..] == gs;
  }

  /** Packing neither loses, duplicates nor reorders a word. */
  lemma {:induction false} PackConcat(line: seq<string>, words: seq<string>)
    ensures Concat(Pack(line, words)) == line + words
    decreases |words|
  {
    if words == [] {
      if line != [] { ConcatCons(line, []); }
      assert line + words == line;
    } else {
      var w, rest := words[0], words[1..];
      assert words == [w] + rest;
      PackStep(line, words);
      if |Unwords(line) + " " + w| <= Width {
        PackConcat(line + [w], rest);
        assert line + [w] + rest == line + words;
      } else {
        PackConcat([w], rest);
        if line != [] {
          ConcatCons(line, Pack([w], rest));
        } else {
          assert [] + Pack([w], rest) == Pack([w], rest);
        }
      }
    }
  }

  /** Every packed line is made of words, has one, and is longer than
      `Width` only when it is a single word. */
  lemma {:induction false} PackBounds(line: seq<string>, words: seq<string>)
    requires AllWords(line) && AllWords(words)
    requires line == [] || LineOk(line)
    ensures forall k :: 0 <= k < |Pack(line, words)| ==>
              LineOk(Pack(line, words)[k]) && AllWords(Pack(line, words)[k])
    decreases |words|
  {
    if words != [] {
      var w, rest := words[0], words[1..];
      PackStep(line, words);
      assert IsWord(w);
      if |Unwords(line) + " " + w| <= Width {
        if line != [] { JoinSnoc(line, w, " "); } else { assert line + [w] == [w]; }
        PackBounds(line + [w], rest);
      } else {
        PackBounds([w], rest);
      }
    }
  }

  /** A packing started from a non-empty line begins with that line's words. */
  lemma {:induction false} PackStartsWithLine(line: seq<string>, words: seq<string>)
    requires line != []
    ensures Pack(line, words) != [] && Pack(line, words)[0] != []
    ensures Pack(line, words)[0][0] == line[0]
    decreases |words|
  {
    if words != [] {
      PackStep(line, words);
      if |Unwords(line) + " " + words[0]| <= Width {
        PackStartsWithLine(line + [words[0]], words[1..]);
      }
    }
  }

  /** The packing is greedy. */
  lemma {:induction false} PackGreedy(line: seq<string>, words: seq<string>)
    ensures Greedy(Pack(line, words))
    decreases |words|
  {
    if words != [] {
      var w, rest := words[0], words[1..];
      PackStep(line, words);
      if |Unwords(line) + " " + w| <= Width {
        PackGreedy(line + [w], rest);
      } else {
        var tail := Pack([w], rest);
        PackGreedy([w], rest);
        PackStartsWithLine([w], rest);
        if line != [] {
          var r := [line] + tail;
          forall k | 1 <= k < |r|
            ensures r[k] != [] && |Unwords(r[k - 1]) + " " + r[k][0]| > Width
          {
            assert r[k] == tail[k - 1];
            if k > 1 {
              assert r[k - 1] == tail[k - 2];
            }
          }
        } else {
          assert [] + tail == tail;
        }
      }
    }
  }

  lemma UnwordsLength(g: seq<string>)
    requires g != [] && IsWord(g[0])
    ensures |Unwords(g)| >= |g[0]| > 0
  {
  }

  /** Words of the wrapped lines, read back. */
  function LineWords(lines: seq<string>): seq<string>
  {
    if lines == [] then [] else Words(lines[0]) + LineWords(lines[1..])
  }

  lemma {:induction false} LineWordsOfLines(groups: seq<seq<string>>)
    requires forall k :: 0 <= k < |groups| ==> AllWords(groups[k])
    ensures LineWords(LinesOf(groups)) == Concat(groups)
  {
    if groups != [] {
      WordsOfUnwords(groups[0]);
      LinesOfCons(groups[0], groups[1..]);
      assert groups == [groups[0]] + groups[1..];
      var lines := LinesOf(groups);
      assert lines[0] == Unwords(groups[0]) && lines[1..] == LinesOf(groups[1..]);
      LineWordsOfLines(groups[1..]);
    }
  }

  lemma {:induction false} UnwordsConcat(groups: seq<seq<string>>)
    requires forall k :: 0 <= k < |groups| ==> groups[k] != []
    ensures Unwords(Concat(groups)) == Unwords(LinesOf(groups))
  {
    if |groups| > 1 {
      UnwordsConcat(groups[1..]);
      assert Concat(groups[1..]) != [] by { assert groups[1] != []; }
      JoinAppend(groups[0], Concat(groups[1..]), " ");
      LinesOfCons(groups[0], groups[1..]);
      assert groups == [groups[0]] + groups[1..];
    } else if |groups| == 1 {
      assert Concat(groups) == groups[0] + Concat([]);
      assert groups[0] + [] == groups[0];
      assert LinesOf(groups) == [Unwords(groups[0])];
    }
  }

  /** A wrapped message keeps its words: reading the shown lines back word by
      word gives the message's words, and the lines joined with single
      blanks equal the words joined with single blanks. */
  lemma WrapKeepsWords(message: string)
    requires |message| > Width
    ensures LineWords(ShownLines(message)) == Words(message)
    ensures Unwords(ShownLines(message)) == Unwords(Words(message))
  {
    var ws := Words(message);
    var gs := Wrap(ws);
    assert ShownLines(message) == LinesOf(gs);
    assert AllWords(ws);
    PackConcat([], ws);
    assert Concat(gs) == ws;
    PackBounds([], ws);
    assert forall k :: 0 <= k < |gs| ==> AllWords(gs[k]) && gs[k] != [];
    LineWordsOfLines(gs);
    UnwordsConcat(gs);
  }

  /** Every shown line of a wrapped message is non-empty, and a line longer
      than `Width` is a single word. */
  lemma WrapLineBounds(message: string)
    requires |message| > Width
    ensures forall k :: 0 <= k < |ShownLines(message)| ==>
              ShownLines(message)[k] != [] &&
              (|ShownLines(message)[k]| > Width ==> IsWord(ShownLines(message)[k]))
  {
    var ws := Words(message);
    var gs := Wrap(ws);
    PackBounds([], ws);
    forall k | 0 <= k < |gs|
      ensures LinesOf(gs)[k] != [] && (|LinesOf(gs)[k]| > Width ==> IsWord(LinesOf(gs)[k]))
    {
      LinesOfAt(gs, k);
      assert LineOk(gs[k]) && AllWords(gs[k]);
      UnwordsLength(gs[k]);
    }
  }

  /** The wrapping is greedy: each shown line, a blank and the first word of
      the next line together exceed `Width`. */
  lemma WrapIsGreedy(message: string)
    requires |message| > Width
    ensures var lines := ShownLines(message);
            forall k :: 1 <= k < |lines| ==>
              Words(lines[k]) != [] && |lines[k - 1]| + 1 + |Words(lines[k])[0]| > Width
  {
    var ws := Words(message);
    var gs := Wrap(ws);
    PackGreedy([], ws);
    PackBounds([], ws);
    var lines := LinesOf(gs);
    forall k | 1 <= k < |lines|
      ensures Words(lines[k]) != [] && |lines[k - 1]| + 1 + |Words(lines[k])[0]| > Width
    {
      LinesOfAt(gs, k);
      LinesOfAt(gs, k - 1);
      assert AllWords(gs[k]);
      WordsOfUnwords(gs[k]);
    }
  }

  /** Every row of the box is the line padded to `Width`, between borders:
      its text column is max(56, |line|) characters wide and holds the line. */
  lemma BoxRowShape(line: string)
    ensures var row := BoxRow(line);
            |row| == 4 + (if |line| < Width then Width else |line|)
            && row[..2] == "│ " && row[|row| - 2..] == " │"
            && row[2..2 + |line|] == line
            && forall i :: 2 + |line| <= i < |row| - 2 ==> row[i] == ' '
  {
    var padded := PadRight(line, Width);
    var row := BoxRow(line);
    assert row[2..|row| - 2] == padded;
    assert row[2..2 + |line|] == padded[..|line|];
  }

  // ---------------------------------------------------------------- staged-file preview

  function FileRow(file: string): string
  {
    "   📄 " + file
  }

  const MoreHead: string := "   ... and "

  const MoreTail: string := " more files"

  function MoreRow(hidden: nat): string
  {
    MoreHead + NatToString(hidden) + MoreTail
  }

  /** The preview of `get_staged_changes`: the first three staged files by
      name, then how many more there are. */
  function Preview(files: seq<string>): (rows: seq<string>)
    ensures |rows| == Min(|files|, PreviewLimit) + (if |files| > PreviewLimit then 1 else 0)
    ensures forall i :: 0 <= i < Min(|files|, PreviewLimit) ==> rows[i] == FileRow(files[i])
  {
    var shown := Take(files, PreviewLimit);
    seq(|shown|, i requires 0 <= i < |shown| => FileRow(shown[i]))
    + (if |files| > PreviewLimit then [MoreRow(|files| - PreviewLimit)] else [])
  }

  /** The preview accounts for every staged file: up to three are named, and
      the number in the last line, read back, is how many were not. */
  lemma PreviewAccountsForAll(files: seq<string>)
    ensures |files| <= PreviewLimit ==>
              |Preview(files)| == |files| &&
              forall i :: 0 <= i < |files| ==> Preview(files)[i] == FileRow(files[i])
    ensures |files| > PreviewLimit ==>
              var last := Preview(files)[PreviewLimit];
              var digits := last[|MoreHead|..|last| - |MoreTail|];
              |Preview(files)| == PreviewLimit + 1 &&
              last[..|MoreHead|] == MoreHead && AllDigits(digits) &&
              last[|last| - |MoreTail|..] == MoreTail &&
              PreviewLimit + DecimalValue(digits) == |files|
  {
    if |files| > PreviewLimit {
      var hidden := |files| - PreviewLimit;
      var last := MoreRow(hidden);
      assert Preview(files)[PreviewLimit] == last;
      assert last[|MoreHead|..|last| - |MoreTail|] == NatToString(hidden);
      DecimalValueOfNatToString(hidden);
    }
  }
}
