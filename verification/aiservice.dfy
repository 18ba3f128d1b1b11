/**
 The documentation generator of `AIService`: a file's text is split into
 chunks of whole lines under a word budget, each chunk goes into a prompt,
 and the completions are assembled under `## Part i` headers. The language
 model is an oracle `complete` that returns `None` where the client raises.
 */
module AiService {
  import opened Wrappers
  import opened Text
  import opened Paths

  /** `MAX_TOKENS_PER_CHUNK`, the default budget of `split_code_by_tokens`. */
  const MaxTokensPerChunk: int := 3000

  // ---------------------------------------------------------------------
  // split_code_by_tokens

  /** The word count of a run of lines: the sum of `len(line.split())`. */
  function Total(lines: seq<string>): nat
    decreases |lines|
  {
    if lines == [] then 0 else Total(lines[..|lines| - 1]) + WordCount(lines[|lines| - 1])
  }

  lemma {:induction false} TotalSnoc(lines: seq<string>, line: string)
    ensures Total(lines + [line]) == Total(lines) + WordCount(line)
  {
    assert (lines + [line])[..|lines|] == lines;
  }

  /** The lines of the runs, run after run. */
  function Concat(runs: seq<seq<string>>): seq<string>
    decreases |runs|
  {
    if runs == [] then [] else runs[0] + Concat(runs[1..])
  }

  lemma {:induction false} ConcatCons(run: seq<string>, rest: seq<seq<string>>)
    ensures Concat([run] + rest) == run + Concat(rest)
  {
    assert ([run] + rest)[1..] == rest;
  }

  /**
   The greedy packing of `split_code_by_tokens` from the middle of the loop:
   `current` is the open chunk and `length` its word count. A line that
   would push the open chunk over `budget` closes it, even when it is empty,
   and opens the next one; the open chunk is emitted at the end unless empty.
   */
  function PackFrom(lines: seq<string>, budget: int, current: seq<string>, length: int): seq<seq<string>>
    decreases |lines|
  {
    if lines == [] then
      if current != [] then [current] else []
    else
      var n := WordCount(lines[0]);
      if length + n > budget then [current] + PackFrom(lines[1..], budget, [lines[0]], n)
      else PackFrom(lines[1..], budget, current + [lines[0]], length + n)
  }

  /** The runs of lines that become the chunks. */
  function Pack(lines: seq<string>, budget: int): seq<seq<string>> {
    PackFrom(lines, budget, [], 0)
  }

  /** `"\n".join` of each run. */
  function JoinRuns(runs: seq<seq<string>>): (chunks: seq<string>)
    ensures |chunks| == |runs|
    ensures forall i :: 0 <= i < |runs| ==> chunks[i] == Join(runs[i], "\n")
  {
    seq(|runs|, i requires 0 <= i < |runs| => Join(runs[i], "\n"))
  }

  /**
   `split_code_by_tokens(content, max_tokens)`. What `Pack` means is stated
   by PackKeepsLines, PackWithinBudget, PackIsGreedy and PackStart, and for
   the chunks themselves by ChunksOfText.
   */
  method SplitCodeByTokens(content: string, budget: int) returns (chunks: seq<string>)
    ensures chunks == JoinRuns(Pack(SplitLines(content), budget))
  {
    var runs := PackLines(SplitLines(content), budget);
    chunks := JoinRuns(runs);
  }

  /** The `for line in lines` loop of `split_code_by_tokens`, keeping each chunk as its list of lines. */
  method PackLines(lines: seq<string>, budget: int) returns (runs: seq<seq<string>>)
    ensures runs == Pack(lines, budget)
  {
    runs := [];
    var current: seq<string> := [];
    var length := 0;
    var i := 0;
    while i < |lines|
      invariant i <= |lines|
      invariant runs + PackFrom(lines[i..], budget, current, length) == Pack(lines, budget)
    {
      var line := lines[i];
      var n := WordCount(line);
      PackStep(lines[i..], budget, current, length);
      assert lines[i..][0] == line && lines[i..][1..] == lines[i + 1..];
      if length + n > budget {
        assert runs + PackFrom(lines[i..], budget, current, length) == (runs + [current]) + PackFrom(lines[i + 1..], budget, [line], n);
        runs := runs + [current];
        current := [line];
        length := n;
      } else {
        current := current + [line];
        length := length + n;
      }
      i := i + 1;
    }
    assert lines[i..] == [];
    if current != [] {
      runs := runs + [current];
    }
  }

  /** One step of the loop of `split_code_by_tokens`. */
  lemma {:induction false} PackStep(lines: seq<string>, budget: int, current: seq<string>, length: int)
    requires lines != []
    ensures PackFrom(lines, budget, current, length) ==
      if length + WordCount(lines[0]) > budget then [current] + PackFrom(lines[1..], budget, [lines[0]], WordCount(lines[0]))
      else PackFrom(lines[1..], budget, current + [lines[0]], length + WordCount(lines[0]))
  {
  }

  /** Read in order, the runs give back exactly the lines: no line is lost, repeated or split. */
  lemma {:induction false} PackKeepsLines(lines: seq<string>, budget: int, current: seq<string>, length: int)
    ensures Concat(PackFrom(lines, budget, current, length)) == current + lines
    decreases |lines|
  {
    if lines == [] {
      if current != [] {
        ConcatCons(current, []);
      }
    } else {
      var n := WordCount(lines[0]);
      assert lines == [lines[0]] + lines[1..];
      PackKeepsLines(lines[1..], budget, if length + n > budget then [lines[0]] else current + [lines[0]],
                     if length + n > budget then n else length + n);
      if length + n > budget {
        ConcatCons(current, PackFrom(lines[1..], budget, [lines[0]], n));
      }
    }
  }

  /** A run of two or more lines stays within the budget; only a single line may exceed it. */
  lemma {:induction false} PackWithinBudget(lines: seq<string>, budget: int, current: seq<string>, length: int)
    requires length == Total(current)
    requires |current| >= 2 ==> length <= budget
    ensures forall i :: 0 <= i < |PackFrom(lines, budget, current, length)| && |PackFrom(lines, budget, current, length)[i]| >= 2 ==>
              Total(PackFrom(lines, budget, current, length)[i]) <= budget
    decreases |lines|
  {
    if lines != [] {
      var n := WordCount(lines[0]);
      if length + n > budget {
        assert Total([lines[0]]) == n by { TotalSnoc([], lines[0]); }
        PackWithinBudget(lines[1..], budget, [lines[0]], n);
        var rest := PackFrom(lines[1..], budget, [lines[0]], n);
        assert forall i :: 1 <= i < |[current] + rest| ==> ([current] + rest)[i] == rest[i - 1];
      } else {
        TotalSnoc(current, lines[0]);
        PackWithinBudget(lines[1..], budget, current + [lines[0]], length + n);
      }
    }
  }

  /** While a chunk is open, every run is non-empty and the first begins with the open chunk. */
  lemma {:induction false} PackOpenRun(lines: seq<string>, budget: int, current: seq<string>, length: int)
    requires current != []
    ensures |PackFrom(lines, budget, current, length)| >= 1
    ensures forall i :: 0 <= i < |PackFrom(lines, budget, current, length)| ==> PackFrom(lines, budget, current, length)[i] != []
    ensures |current| <= |PackFrom(lines, budget, current, length)[0]|
    ensures PackFrom(lines, budget, current, length)[0][..|current|] == current
    decreases |lines|
  {
    if lines != [] {
      var n := WordCount(lines[0]);
      if length + n > budget {
        PackOpenRun(lines[1..], budget, [lines[0]], n);
        var rest := PackFrom(lines[1..], budget, [lines[0]], n);
        assert forall i :: 1 <= i < |[current] + rest| ==> ([current] + rest)[i] == rest[i - 1];
      } else {
        PackOpenRun(lines[1..], budget, current + [lines[0]], length + n);
        assert (current + [lines[0]])[..|current|] == current;
      }
    }
  }

  /**
   The packing is greedy: a run is closed only because the first line of the
   next run would have pushed it over the budget.
   */
  lemma {:induction false} PackIsGreedy(lines: seq<string>, budget: int, current: seq<string>, length: int)
    requires length == Total(current)
    ensures forall i :: 1 <= i < |PackFrom(lines, budget, current, length)| ==>
              PackFrom(lines, budget, current, length)[i] != [] &&
              Total(PackFrom(lines, budget, current, length)[i - 1]) + WordCount(PackFrom(lines, budget, current, length)[i][0]) > budget
    decreases |lines|
  {
    if lines != [] {
      var n := WordCount(lines[0]);
      if length + n > budget {
        assert Total([lines[0]]) == n by { TotalSnoc([], lines[0]); }
        PackIsGreedy(lines[1..], budget, [lines[0]], n);
        PackOpenRun(lines[1..], budget, [lines[0]], n);
        var rest := PackFrom(lines[1..], budget, [lines[0]], n);
        var runs := [current] + rest;
        assert rest[0][..1] == [lines[0]];
        assert forall i :: 1 <= i < |runs| ==> runs[i] == rest[i - 1];
      } else {
        TotalSnoc(current, lines[0]);
        PackIsGreedy(lines[1..], budget, current + [lines[0]], length + n);
      }
    }
  }

  /**
   How the packing starts: no lines give no runs; otherwise the first line
   opens a chunk, preceded by an empty run exactly when that line alone is
   over the budget.
   */
  lemma {:induction false} PackStart(lines: seq<string>, budget: int)
    ensures lines == [] ==> Pack(lines, budget) == []
    ensures lines != [] ==>
      Pack(lines, budget) == (if WordCount(lines[0]) > budget then [[]] else []) + PackFrom(lines[1..], budget, [lines[0]], WordCount(lines[0]))
  {
    if lines != [] {
      assert [] + [lines[0]] == [lines[0]];
    }
  }

  /**
   The properties of the chunks of a text: each is a run of its lines joined
   by `\n`, the runs read in order give back the lines, a run of more than
   one line keeps to the budget, only the first run can be empty, and it is
   empty exactly when the first line alone is over the budget. A later chunk
   is the empty string only when its run is a single empty line.
   */
  lemma {:induction false} ChunksOfText(content: string, budget: int)
    ensures |JoinRuns(Pack(SplitLines(content), budget))| == 0 <==> SplitLines(content) == []
    ensures Concat(Pack(SplitLines(content), budget)) == SplitLines(content)
    ensures forall i :: 0 <= i < |Pack(SplitLines(content), budget)| && |Pack(SplitLines(content), budget)[i]| >= 2 ==>
              Total(Pack(SplitLines(content), budget)[i]) <= budget
    ensures forall i :: 1 <= i < |Pack(SplitLines(content), budget)| ==> Pack(SplitLines(content), budget)[i] != []
    ensures SplitLines(content) != [] ==>
              (Pack(SplitLines(content), budget)[0] == [] <==> WordCount(SplitLines(content)[0]) > budget)
    ensures forall i :: 1 <= i < |Pack(SplitLines(content), budget)| && JoinRuns(Pack(SplitLines(content), budget))[i] == "" ==>
              Pack(SplitLines(content), budget)[i] == [""]
  {
    var lines := SplitLines(content);
    PackKeepsLines(lines, budget, [], 0);
    PackWithinBudget(lines, budget, [], 0);
    PackStart(lines, budget);
    if lines != [] {
      var rest := PackFrom(lines[1..], budget, [lines[0]], WordCount(lines[0]));
      PackOpenRun(lines[1..], budget, [lines[0]], WordCount(lines[0]));
      if WordCount(lines[0]) > budget {
        assert forall i :: 1 <= i < |[[]] + rest| ==> ([[]] + rest)[i] == rest[i - 1];
      }
    }
    var runs := Pack(lines, budget);
    forall i | 1 <= i < |runs| && JoinRuns(runs)[i] == "" ensures runs[i] == [""] {
      EmptyJoinIsOneEmptyLine(runs[i]);
    }
  }

  /** A run of lines joins to the empty string only when it is one empty line. */
  lemma {:induction false} EmptyJoinIsOneEmptyLine(run: seq<string>)
    requires run != []
    ensures Join(run, "\n") == "" ==> run == [""]
  {
    if |run| >= 2 {
      assert |Join(run, "\n")| >= 1;
    }
  }

  /**
   A chunk of more than nothing splits back at `\n` into its own lines, so
   no line is cut between two chunks.
   */
  lemma {:induction false} ChunkSplitsIntoItsLines(content: string, budget: int, i: nat)
    requires i < |Pack(SplitLines(content), budget)| && Pack(SplitLines(content), budget)[i] != []
    ensures Split(JoinRuns(Pack(SplitLines(content), budget))[i], "\n") == Pack(SplitLines(content), budget)[i]
  {
    var lines := SplitLines(content);
    var run := Pack(lines, budget)[i];
    PackKeepsLines(lines, budget, [], 0);
    assert [] + lines == lines;
    SplitLinesHaveNoBreaks(content);
    ConcatHolds(Pack(lines, budget), i);
    forall k | 0 <= k < |run| ensures '\n' !in run[k] {
      assert run[k] in lines;
    }
    SplitJoin(run, '\n');
  }

  /** Each line of a run is a line of the concatenation. */
  lemma {:induction false} ConcatHolds(runs: seq<seq<string>>, i: nat)
    requires i < |runs|
    ensures forall x :: x in runs[i] ==> x in Concat(runs)
    decreases |runs|
  {
    ConcatCons(runs[0], runs[1..]);
    assert runs == [runs[0]] + runs[1..];
    if i > 0 {
      ConcatHolds(runs[1..], i - 1);
    }
  }

  // ---------------------------------------------------------------------
  // build_prompt

  /**
   The fixed text of the prompt around its four interpolated values; the
   prose itself is not reproduced.
   */
  datatype PromptTemplate = PromptTemplate(head: string, beforeName: string, beforeDeps: string, beforePath: string, tail: string)

  /** The f-string of `build_prompt`: the code, the file name, the dependencies joined by `, `, the path. */
  function FormatPrompt(t: PromptTemplate, fileName: string, filePath: string, content: string, deps: seq<string>): string {
    t.head + content + t.beforeName + fileName + t.beforeDeps + Join(deps, ", ") + t.beforePath + filePath + t.tail
  }

  /** Each character of `s` as a one-character string: iterating over a Python string. */
  function Chars(s: string): (cs: seq<string>)
    ensures |cs| == |s|
    ensures forall i :: 0 <= i < |s| ==> cs[i] == [s[i]]
  {
    seq(|s|, i requires 0 <= i < |s| => [s[i]])
  }

  /** `build_prompt` returns `"\n".join(prompt)`: the prompt's characters with `\n` between them. */
  function BuildPrompt(t: PromptTemplate, fileName: string, filePath: string, content: string, deps: seq<string>): string {
    Join(Chars(FormatPrompt(t, fileName, filePath, content, deps)), "\n")
  }

  /**
   Joining the characters of a non-empty string with `\n` doubles it less
   one: the characters sit at the even positions and `\n` at the odd ones.
   */
  lemma {:induction false} JoinCharsInterleaves(s: string)
    requires |s| >= 1
    ensures |Join(Chars(s), "\n")| == 2 * |s| - 1
    ensures forall k :: 0 <= k < |s| ==> Join(Chars(s), "\n")[2 * k] == s[k]
    ensures forall k :: 0 <= k < |s| - 1 ==> Join(Chars(s), "\n")[2 * k + 1] == '\n'
    decreases |s|
  {
    if |s| > 1 {
      var rest := s[1..];
      JoinCharsInterleaves(rest);
      JoinCharsCons(s);
      var whole, j := Join(Chars(s), "\n"), Join(Chars(rest), "\n");
      forall k | 1 <= k < |s| ensures whole[2 * k] == s[k] {
        assert whole[2 * k] == j[2 * (k - 1)];
      }
      forall k | 1 <= k < |s| - 1 ensures whole[2 * k + 1] == '\n' {
        assert whole[2 * k + 1] == j[2 * (k - 1) + 1];
      }
    } else {
      assert Chars(s) == [[s[0]]];
    }
  }

  /** The first character, a line feed, then the join of the rest. */
  lemma {:induction false} JoinCharsCons(s: string)
    requires |s| > 1
    ensures Join(Chars(s), "\n") == [s[0], '\n'] + Join(Chars(s[1..]), "\n")
  {
    assert Chars(s) == [[s[0]]] + Chars(s[1..]);
    JoinCons([s[0]], Chars(s[1..]), "\n");
  }

  /** The prompt actually sent: the formatted prompt spread out one character per line. */
  lemma {:induction false} PromptIsSpreadOut(t: PromptTemplate, fileName: string, filePath: string, content: string, deps: seq<string>)
    ensures var p := FormatPrompt(t, fileName, filePath, content, deps);
      |BuildPrompt(t, fileName, filePath, content, deps)| == if p == [] then 0 else 2 * |p| - 1
  {
    var p := FormatPrompt(t, fileName, filePath, content, deps);
    if p != [] {
      JoinCharsInterleaves(p);
    }
  }

  // ---------------------------------------------------------------------
  // generate_documentation

  /** `f"\n\n## Part {i + 1}\n"` and the stripped completion of chunk `i`. */
  function Part(i: nat, completion: string): string {
    "\n\n## Part " + NatToString(i + 1) + "\n" + Strip(completion)
  }

  /** The document for the completions of the chunks, in chunk order. */
  function Assemble(completions: seq<string>): (doc: string)
    decreases |completions|
  {
    if completions == [] then ""
    else
      var n := |completions| - 1;
      Assemble(completions[..n]) + Part(n, completions[n])
  }

  /** The completions of every prompt, or `None` when one of them fails. */
  function CompleteAll(prompts: seq<string>, complete: string -> Option<string>): (r: Option<seq<string>>)
    ensures r.Some? <==> forall i :: 0 <= i < |prompts| ==> complete(prompts[i]).Some?
    ensures r.Some? ==> |r.value| == |prompts| && forall i :: 0 <= i < |prompts| ==> r.value[i] == complete(prompts[i]).value
    decreases |prompts|
  {
    if prompts == [] then Some([])
    else
      var n := |prompts| - 1;
      match CompleteAll(prompts[..n], complete)
      case None => None
      case Some(init) =>
        match complete(prompts[n])
        case None => None
        case Some(c) => Some(init + [c])
  }

  /** The prompt for each chunk of a file. */
  function Prompts(t: PromptTemplate, filePath: string, deps: seq<string>, chunks: seq<string>): (ps: seq<string>)
    ensures |ps| == |chunks|
    ensures forall i :: 0 <= i < |chunks| ==> ps[i] == BuildPrompt(t, BaseName(filePath), filePath, chunks[i], deps)
  {
    seq(|chunks|, i requires 0 <= i < |chunks| => BuildPrompt(t, BaseName(filePath), filePath, chunks[i], deps))
  }

  /**
   `generate_documentation(content, file_path, dependencies)`: the chunks of
   the content at the default budget, one completion per chunk, each under
   its numbered header. A failing completion ends the whole call.
   */
  method GenerateDocumentation(t: PromptTemplate, content: string, filePath: string, deps: seq<string>, complete: string -> Option<string>)
    returns (r: Option<string>)
    ensures var chunks := JoinRuns(Pack(SplitLines(content), MaxTokensPerChunk));
      var prompts := Prompts(t, filePath, deps, chunks);
      && (r.Some? <==> CompleteAll(prompts, complete).Some?)
      && (r.Some? ==> r.value == Assemble(CompleteAll(prompts, complete).value))
  {
    var chunks := SplitCodeByTokens(content, MaxTokensPerChunk);
    ghost var prompts := Prompts(t, filePath, deps, chunks);
    var full := "";
    ghost var done: seq<string> := [];
    var i := 0;
    while i < |chunks|
      invariant i <= |chunks|
      invariant CompleteAll(prompts[..i], complete) == Some(done)
      invariant |done| == i && full == Assemble(done)
    {
      var prompt := BuildPrompt(t, BaseName(filePath), filePath, chunks[i], deps);
      CompleteAllStep(prompts, complete, i);
      assert prompt == prompts[i];
      match complete(prompt) {
        case None =>
          CompleteAllPrefix(prompts, complete, i + 1);
          return None;
        case Some(c) =>
          AssembleSnoc(done, c);
          full := full + Part(i, c);
          done := done + [c];
      }
      i := i + 1;
    }
    assert prompts[..i] == prompts;
    r := Some(full);
  }

  /** One more prompt: its completion is appended, or the whole fails. */
  lemma {:induction false} CompleteAllStep(prompts: seq<string>, complete: string -> Option<string>, i: nat)
    requires i < |prompts|
    ensures CompleteAll(prompts[..i + 1], complete) ==
      if CompleteAll(prompts[..i], complete).Some? && complete(prompts[i]).Some?
      then Some(CompleteAll(prompts[..i], complete).value + [complete(prompts[i]).value])
      else None
  {
    assert prompts[..i + 1][..i] == prompts[..i];
  }

  /** One more completion adds its numbered part at the end. */
  lemma {:induction false} AssembleSnoc(completions: seq<string>, c: string)
    ensures Assemble(completions + [c]) == Assemble(completions) + Part(|completions|, c)
  {
    assert (completions + [c])[..|completions|] == completions;
  }

  /** A failure among the first prompts is a failure of all of them. */
  lemma {:induction false} CompleteAllPrefix(prompts: seq<string>, complete: string -> Option<string>, k: nat)
    requires k <= |prompts| && CompleteAll(prompts[..k], complete).None?
    ensures CompleteAll(prompts, complete).None?
  {
    var i :| 0 <= i < k && complete(prompts[..k][i]).None?;
    assert prompts[..k][i] == prompts[i];
  }

  /**
   Appending a completion adds its numbered part at the end, so the parts
   of the document come in chunk order, numbered from 1.
   */
  lemma {:induction false} AssemblePrefix(completions: seq<string>, k: nat)
    requires k <= |completions|
    ensures StartsWith(Assemble(completions), Assemble(completions[..k]))
    decreases |completions| - k
  {
    if k < |completions| {
      AssemblePrefix(completions, k + 1);
      assert completions[..k + 1][..k] == completions[..k];
      assert Assemble(completions[..k + 1]) == Assemble(completions[..k]) + Part(k, completions[k]);
    } else {
      assert completions[..k] == completions;
    }
  }

  /** The document is empty exactly when there are no chunks. */
  lemma {:induction false} AssembleEmpty(completions: seq<string>)
    ensures completions == [] <==> Assemble(completions) == ""
  {
    if completions != [] {
      var n := |completions| - 1;
      assert completions == completions[..n] + [completions[n]];
      AssembleSnoc(completions[..n], completions[n]);
      assert |Part(n, completions[n])| > 0;
    }
  }

  /** The first part is headed `## Part 1`. */
  lemma {:induction false} PartOne(completion: string)
    ensures Part(0, completion) == "\n\n## Part 1\n" + Strip(completion)
  {
    assert NatToString(1) == "1";
  }

  /** A non-empty document opens with the header of part 1 and the first completion. */
  lemma {:induction false} AssembleOpensWithPartOne(completions: seq<string>)
    requires completions != []
    ensures StartsWith(Assemble(completions), "\n\n## Part 1\n" + Strip(completions[0]))
  {
    AssemblePrefix(completions, 1);
    assert completions[..1] == [] + [completions[0]];
    AssembleSnoc([], completions[0]);
    PartOne(completions[0]);
  }
}
