/**
 * The patcher half of the engine: `addHook` splices hook lines into the
 * text of a `.pre-commit-config.yaml` (after the anchor line of a repo that
 * is already declared, or as a new `- repo:` block at the end), and
 * `UpdatePrecommitConfig` applies one `addHook` per selected repo and
 * reports whether the text changed.
 */
module Patcher {
  import opened Precommit
  import opened GoStrings

  // ---------------------------------------------------------------------
  // The lines addHook writes
  // ---------------------------------------------------------------------

  function Spaces(n: nat): (s: string)
    ensures |s| == n && forall i :: 0 <= i < n ==> s[i] == ' '
  {
    seq(n, _ => ' ')
  }

  /**
   * How far hook lines are indented: one space less than the column of the
   * first `hooks` sequence in the document, or two spaces when there is none.
   */
  function IndentWidth(hooksSeq: Option<Position>): nat
  {
    match hooksSeq
    case None => 2
    case Some(p) => if p.column >= 1 then p.column - 1 else 0
  }

  function Indent(hooksSeq: Option<Position>): string
  {
    Spaces(IndentWidth(hooksSeq))
  }

  /** The line declaring hook `h`. */
  function HookLine(indent: string, h: Hook): string
  {
    indent + "- id: " + h.id
  }

  /** One `- id:` line per hook, in order. */
  function HookLines(indent: string, hooks: seq<Hook>): (lines: seq<string>)
    ensures |lines| == |hooks|
  {
    seq(|hooks|, i requires 0 <= i < |hooks| => HookLine(indent, hooks[i]))
  }

  /** The block that declares a repo the document does not have yet. */
  function NewRepoLines(update: Repo, indent: string): (lines: seq<string>)
    ensures |lines| == 3 + |update.hooks|
  {
    ["- repo: " + update.repo, "  rev: " + update.rev, "  hooks:"] + HookLines(indent, update.hooks)
  }

  /** No field of the repo that ends up in the text holds a line break. */
  predicate SingleLineRepo(update: Repo)
  {
    && '\n' !in update.repo
    && '\n' !in update.rev
    && forall h :: h in update.hooks ==> '\n' !in h.id
  }

  lemma HookLinesSingle(indent: string, hooks: seq<Hook>)
    requires '\n' !in indent
    requires forall h :: h in hooks ==> '\n' !in h.id
    ensures SingleLines(HookLines(indent, hooks))
  {
    forall k | 0 <= k < |hooks| ensures '\n' !in HookLines(indent, hooks)[k] {
      assert hooks[k] in hooks;
      assert HookLines(indent, hooks)[k] == indent + "- id: " + hooks[k].id;
    }
  }

  lemma NewRepoLinesSingle(update: Repo, indent: string)
    requires '\n' !in indent && SingleLineRepo(update)
    ensures SingleLines(NewRepoLines(update, indent))
  {
    HookLinesSingle(indent, update.hooks);
    var head := ["- repo: " + update.repo, "  rev: " + update.rev, "  hooks:"];
    assert SingleLines(head);
  }

  // ---------------------------------------------------------------------
  // addHook
  // ---------------------------------------------------------------------

  /**
   * What `addHook(update, repoAlreadyExist, input)` returns, given the node
   * tree the YAML library builds from `input`.
   */
  function AddHookSpec(update: Repo, repoAlreadyExist: bool, input: string, tree: Option<NodeTree>)
    : (r: Result<string, Error>)
    ensures r == Err(ParseError) <==> tree.None?
    ensures r.Err? ==> r.error in {ParseError, IndexPanic, RepoNotFound(update.repo)}
    ensures r.Err? && r.error != ParseError ==> repoAlreadyExist
    ensures !repoAlreadyExist && tree.Some? ==> r.Ok?
  {
    if tree.None? then Err(ParseError)
    else
      var indent := Indent(tree.value.hooksSeq);
      var lines := Split(input);
      if repoAlreadyExist then
        match tree.value.anchor(update.repo)
        case None => Err(RepoNotFound(update.repo))
        case Some(p) =>
          if p.line + 1 > |lines| then Err(IndexPanic)
          else Ok(Join(lines[..p.line + 1] + HookLines(indent, update.hooks) + lines[p.line + 1..]))
      else Ok(Join(lines + NewRepoLines(update, indent)))
  }

  /** The indentation loop of `addHook`: one space per column before the `hooks` sequence. */
  method Indentation(hooksSeq: Option<Position>) returns (spaces: string)
    ensures spaces == Indent(hooksSeq)
  {
    spaces := "";
    if hooksSeq.None? {
      spaces := "  ";
    } else {
      var i := 0;
      while i < hooksSeq.value.column - 1
        invariant 0 <= i <= IndentWidth(hooksSeq)
        invariant spaces == Spaces(i)
      {
        spaces := spaces + " ";
        i := i + 1;
      }
    }
  }

  /**
   * The copy loops of `addHook` for a declared repo: lines `0 .. line` of the
   * input, the hook lines, then the remaining input lines. Go indexes past
   * the end of the input when `line + 1` exceeds its line count.
   */
  method SpliceHookLines(inputLines: seq<string>, line: nat, spaces: string, hooks: seq<Hook>)
    returns (r: Result<seq<string>, Error>)
    ensures line + 1 > |inputLines| ==> r == Err(IndexPanic)
    ensures line + 1 <= |inputLines| ==>
              r == Ok(inputLines[..line + 1] + HookLines(spaces, hooks) + inputLines[line + 1..])
  {
    var output: seq<string> := [];
    var i := 0;
    while i < line + 1
      invariant 0 <= i <= line + 1 && i <= |inputLines|
      invariant output == inputLines[..i]
    {
      if i == |inputLines| {
        return Err(IndexPanic);
      }
      output := output + [inputLines[i]];
      i := i + 1;
    }
    for k := 0 to |hooks|
      invariant output == inputLines[..line + 1] + HookLines(spaces, hooks[..k])
    {
      assert hooks[..k + 1] == hooks[..k] + [hooks[k]];
      output := output + [spaces + "- id: " + hooks[k].id];
    }
    assert hooks[..|hooks|] == hooks;
    i := line + 1;
    while i < |inputLines|
      invariant line + 1 <= i <= |inputLines|
      invariant output == inputLines[..line + 1] + HookLines(spaces, hooks) + inputLines[line + 1..i]
    {
      assert inputLines[line + 1..i + 1] == inputLines[line + 1..i] + [inputLines[i]];
      output := output + [inputLines[i]];
      i := i + 1;
    }
    assert inputLines[line + 1..|inputLines|] == inputLines[line + 1..];
    return Ok(output);
  }

  /** The appending branch of `addHook`: a `- repo:` header, then the hook lines. */
  method AppendRepoBlock(inputLines: seq<string>, update: Repo, spaces: string)
    returns (lines: seq<string>)
    ensures lines == inputLines + NewRepoLines(update, spaces)
  {
    lines := inputLines + ["- repo: " + update.repo];
    lines := lines + ["  rev: " + update.rev];
    lines := lines + ["  hooks:"];
    ghost var header := lines;
    for k := 0 to |update.hooks|
      invariant lines == header + HookLines(spaces, update.hooks[..k])
    {
      assert update.hooks[..k + 1] == update.hooks[..k] + [update.hooks[k]];
      lines := lines + [spaces + "- id: " + update.hooks[k].id];
    }
    assert update.hooks[..|update.hooks|] == update.hooks;
  }

  /** `addHook`: parse, find the indentation and the anchor, splice, join. */
  method AddHook(update: Repo, repoAlreadyExist: bool, inputYaml: string, yaml: Yaml)
    returns (r: Result<string, Error>)
    ensures r == AddHookSpec(update, repoAlreadyExist, inputYaml, yaml.nodes(inputYaml))
  {
    var t := yaml.nodes(inputYaml);
    if t.None? {
      return Err(ParseError);
    }
    var spaces := Indentation(t.value.hooksSeq);
    if repoAlreadyExist {
      var anchor := t.value.anchor(update.repo);
      if anchor.None? {
        return Err(RepoNotFound(update.repo));
      }
      var output := SpliceHookLines(Split(inputYaml), anchor.value.line, spaces, update.hooks);
      if output.Err? {
        return Err(output.error);
      }
      return Ok(Join(output.value));
    } else {
      var inputLines := AppendRepoBlock(Split(inputYaml), update, spaces);
      return Ok(Join(inputLines));
    }
  }

  /**
   * For a repo already declared, the hook lines go after the first `L + 1`
   * lines of the input, where `L` is the anchor's 1-based line: that is,
   * after the line following the anchor line. The output's lines are those
   * `L + 1` lines, one `- id:` line per hook, then the rest of the input.
   * Removing the hook lines gives the input back.
   */
  lemma AddHookExistingRepo(update: Repo, input: string, tree: Option<NodeTree>)
    requires tree.Some? && tree.value.anchor(update.repo).Some?
    requires tree.value.anchor(update.repo).value.line + 1 <= |Split(input)|
    requires SingleLineRepo(update)
    ensures AddHookSpec(update, true, input, tree).Ok?
    ensures var out := Split(AddHookSpec(update, true, input, tree).value);
            var lines := Split(input);
            var n := tree.value.anchor(update.repo).value.line + 1;
            var h := |update.hooks|;
            && out == lines[..n] + HookLines(Indent(tree.value.hooksSeq), update.hooks) + lines[n..]
            && |out| == |lines| + h
            && Join(out[..n] + out[n + h..]) == input
  {
    var lines := Split(input);
    var n := tree.value.anchor(update.repo).value.line + 1;
    var block := HookLines(Indent(tree.value.hooksSeq), update.hooks);
    AddHookSpecSplices(update, input, tree);
    HookLinesSingle(Indent(tree.value.hooksSeq), update.hooks);
    SpliceLines(lines, n, block);
    JoinSplit(input);
  }

  /** Splitting a spliced, joined block of single lines recovers the splice, and, without the block, the lines. */
  lemma SpliceLines(lines: seq<string>, n: nat, block: seq<string>)
    requires n <= |lines| && |lines| >= 1
    requires SingleLines(lines) && SingleLines(block)
    ensures Split(Join(lines[..n] + block + lines[n..])) == lines[..n] + block + lines[n..]
    ensures (lines[..n] + block + lines[n..])[..n] + (lines[..n] + block + lines[n..])[n + |block|..] == lines
  {
    SpliceSingleLines(lines, n, block);
    SplitJoin(lines[..n] + block + lines[n..]);
    SpliceRemove(lines, n, block);
  }

  /** Splicing single lines into single lines gives single lines. */
  lemma SpliceSingleLines(lines: seq<string>, n: nat, block: seq<string>)
    requires n <= |lines|
    requires SingleLines(lines) && SingleLines(block)
    ensures SingleLines(lines[..n] + block + lines[n..])
  {
    SingleLinesSlice(lines, 0, n);
    SingleLinesSlice(lines, n, |lines|);
    assert lines[0..n] == lines[..n] && lines[n..|lines|] == lines[n..];
    SingleLinesConcat(lines[..n], block);
    SingleLinesConcat(lines[..n] + block, lines[n..]);
  }

  /** Cutting the spliced block out again gives the original lines. */
  lemma SpliceRemove(lines: seq<string>, n: nat, block: seq<string>)
    requires n <= |lines|
    ensures (lines[..n] + block + lines[n..])[..n] + (lines[..n] + block + lines[n..])[n + |block|..] == lines
  {
    var spliced := lines[..n] + block + lines[n..];
    assert spliced[..n] == lines[..n];
    assert spliced[n + |block|..] == lines[n..];
  }

  /** `addHook` for a declared repo whose anchor is within the text splices the hook lines. */
  lemma AddHookSpecSplices(update: Repo, input: string, tree: Option<NodeTree>)
    requires tree.Some? && tree.value.anchor(update.repo).Some?
    requires tree.value.anchor(update.repo).value.line + 1 <= |Split(input)|
    ensures var n := tree.value.anchor(update.repo).value.line + 1;
            var lines := Split(input);
            AddHookSpec(update, true, input, tree)
            == Ok(Join(lines[..n] + HookLines(Indent(tree.value.hooksSeq), update.hooks) + lines[n..]))
  {
  }

  /**
   * For a repo not yet declared, the output is the input followed by a line
   * break and the new `- repo:` block: the input is a prefix of the output,
   * and exactly `3 + |hooks|` lines are added.
   */
  lemma AddHookNewRepo(update: Repo, input: string, tree: Option<NodeTree>)
    requires tree.Some?
    ensures AddHookSpec(update, false, input, tree)
         == Ok(input + "\n" + Join(NewRepoLines(update, Indent(tree.value.hooksSeq))))
    ensures SingleLineRepo(update) ==>
              Split(AddHookSpec(update, false, input, tree).value)
              == Split(input) + NewRepoLines(update, Indent(tree.value.hooksSeq))
  {
    var indent := Indent(tree.value.hooksSeq);
    var block := NewRepoLines(update, indent);
    assert AddHookSpec(update, false, input, tree) == Ok(Join(Split(input) + block));
    AppendLines(input, block);
    if SingleLineRepo(update) {
      NewRepoLinesSingle(update, indent);
    }
  }

  /** Joining the lines of `input` with a further block appends that block after a line break. */
  lemma AppendLines(input: string, block: seq<string>)
    requires |block| >= 1
    ensures Join(Split(input) + block) == input + "\n" + Join(block)
    ensures SingleLines(block) ==> Split(Join(Split(input) + block)) == Split(input) + block
  {
    var lines := Split(input);
    JoinAppend(lines, block);
    JoinSplit(input);
    if SingleLines(block) {
      SingleLinesConcat(lines, block);
      SplitJoin(lines + block);
    }
  }

  // ---------------------------------------------------------------------
  // UpdatePrecommitConfig
  // ---------------------------------------------------------------------

  /** The repo URL is declared in the parsed document. */
  predicate RepoExists(original: seq<Repo>, url: string)
  {
    exists r :: r in original && r.repo == url
  }

  /** Some update declares a repo the original document does not have. */
  predicate NeedsNewline(updates: seq<Repo>, original: seq<Repo>)
  {
    exists u :: u in updates && !RepoExists(original, u.repo)
  }

  /** The search of `UpdatePrecommitConfig` for a repo of the original document with this URL. */
  method RepoAlreadyExists(original: seq<Repo>, url: string) returns (found: bool)
    ensures found <==> RepoExists(original, url)
  {
    found := false;
    var k := 0;
    while k < |original|
      invariant 0 <= k <= |original|
      invariant !found
      invariant forall j :: 0 <= j < k ==> original[j].repo != url
    {
      if original[k].repo == url {
        found := true;
      }
      if found {
        assert original[k] in original;
        break;
      }
      k := k + 1;
    }
    if !found {
      forall o | o in original ensures o.repo != url {
        var j :| 0 <= j < |original| && original[j] == o;
      }
    }
  }

  /** The text edits start from: the content, or a bare `repos:` key for an empty one. */
  function StartText(content: string): (text: string)
    ensures text != ""
    ensures content != "" ==> text == content
  {
    if content == "" then "repos:" else content
  }

  /**
   * `addHook` applied to each update in turn, each on the text the previous
   * one produced; whether a repo exists is judged on the original document.
   * The first error ends the run.
   */
  function ApplyUpdates(text: string, updates: seq<Repo>, original: seq<Repo>, yaml: Yaml)
    : (r: Result<string, Error>)
    ensures r.Err? ==>
              || r.error == ParseError
              || r.error == IndexPanic
              || (r.error.RepoNotFound?
                  && exists u :: u in updates && u.repo == r.error.repo && RepoExists(original, u.repo))
    ensures ((forall u :: u in updates ==> !RepoExists(original, u.repo))
             && (forall t :: yaml.nodes(t).Some?)) ==> r.Ok?
    decreases |updates|
  {
    if updates == [] then Ok(text)
    else
      match AddHookSpec(updates[0], RepoExists(original, updates[0].repo), text, yaml.nodes(text))
      case Err(e) => Err(e)
      case Ok(next) => ApplyUpdates(next, updates[1..], original, yaml)
  }

  /**
   * `UpdatePrecommitConfig(content, updates)`. `OriginalInput` is the
   * content; `FinalOutput` is the edited text, with one extra line break when
   * some update declared a new repo; `IsChanged` says whether any update was
   * applied. Any error returns no response at all.
   */
  method UpdatePrecommitConfig(content: string, updates: seq<Repo>, yaml: Yaml)
    returns (r: Result<Response, Error>)
    ensures yaml.decode(content).None? ==> r == Err(ParseError)
    ensures yaml.decode(content).Some? ==>
              var original := yaml.decode(content).value;
              var edited := ApplyUpdates(StartText(content), updates, original, yaml);
              && (edited.Err? ==> r == Err(edited.error))
              && (edited.Ok? ==>
                    r == Ok(Response(
                           content,
                           if NeedsNewline(updates, original) then edited.value + "\n" else edited.value,
                           |updates| > 0,
                           false)))
  {
    var configMetadata := yaml.decode(content);
    if configMetadata.None? {
      return Err(ParseError);
    }
    var original := configMetadata.value;
    var finalOutput := content;
    var isChanged := false;
    if content == "" {
      finalOutput := "repos:";
    }
    var newline := false;

    for i := 0 to |updates|
      invariant ApplyUpdates(finalOutput, updates[i..], original, yaml)
             == ApplyUpdates(StartText(content), updates, original, yaml)
      invariant newline <==> NeedsNewline(updates[..i], original)
      invariant isChanged <==> i > 0
    {
      var update := updates[i];
      var repoAlreadyExist := RepoAlreadyExists(original, update.repo);
      if !repoAlreadyExist {
        newline := true;
      }
      var result := AddHook(update, repoAlreadyExist, finalOutput, yaml);
      UpdateStep(finalOutput, updates, i, original, yaml);
      if result.Err? {
        return Err(result.error);
      }
      finalOutput := result.value;
      isChanged := true;
    }
    assert updates[..|updates|] == updates;
    if isChanged && newline {
      finalOutput := finalOutput + "\n";
    }
    return Ok(Response(content, finalOutput, isChanged, false));
  }

  /** One pass of the edit loop: the edit of update `i`, and the newline flag after it. */
  lemma UpdateStep(text: string, updates: seq<Repo>, i: nat, original: seq<Repo>, yaml: Yaml)
    requires i < |updates|
    ensures var u := updates[i];
            var step := AddHookSpec(u, RepoExists(original, u.repo), text, yaml.nodes(text));
            && (step.Err? ==> ApplyUpdates(text, updates[i..], original, yaml) == Err(step.error))
            && (step.Ok? ==> ApplyUpdates(text, updates[i..], original, yaml)
                             == ApplyUpdates(step.value, updates[i + 1..], original, yaml))
    ensures NeedsNewline(updates[..i + 1], original)
            <==> NeedsNewline(updates[..i], original) || !RepoExists(original, updates[i].repo)
  {
    assert updates[..i + 1] == updates[..i] + [updates[i]];
    assert updates[i] in updates[..i + 1];
    assert updates[i..][0] == updates[i];
    assert updates[i..][1..] == updates[i + 1..];
  }

  // ---------------------------------------------------------------------
  // Properties of a run of edits
  // ---------------------------------------------------------------------

  /** Apply `updates` to the result of a previous run, unless that run failed. */
  function Then(first: Result<string, Error>, updates: seq<Repo>, original: seq<Repo>, yaml: Yaml)
    : Result<string, Error>
  {
    match first
    case Err(e) => Err(e)
    case Ok(text) => ApplyUpdates(text, updates, original, yaml)
  }

  /**
   * Updates compose: running `a + b` is running `a`, then `b` on its result.
   * In particular an error in `b` discards every edit `a` made.
   */
  lemma {:induction false} ApplyUpdatesCompose(
    text: string, a: seq<Repo>, b: seq<Repo>, original: seq<Repo>, yaml: Yaml)
    ensures ApplyUpdates(text, a + b, original, yaml) == Then(ApplyUpdates(text, a, original, yaml), b, original, yaml)
    decreases |a|
  {
    if a == [] {
      assert a + b == b;
    } else {
      assert (a + b)[0] == a[0];
      assert (a + b)[1..] == a[1..] + b;
      var u := a[0];
      match AddHookSpec(u, RepoExists(original, u.repo), text, yaml.nodes(text))
      case Err(e) =>
      case Ok(next) => ApplyUpdatesCompose(next, a[1..], b, original, yaml);
    }
  }

  /** How many lines a run of updates adds: the hooks, plus a 3-line header per new repo. */
  function AddedLines(updates: seq<Repo>, original: seq<Repo>): nat
  {
    if updates == [] then 0
    else
      (if RepoExists(original, updates[0].repo) then 0 else 3)
      + |updates[0].hooks| + AddedLines(updates[1..], original)
  }

  /** The line counts add up: a successful run adds exactly `AddedLines` lines. */
  lemma {:induction false} ApplyUpdatesLineCount(text: string, updates: seq<Repo>, original: seq<Repo>, yaml: Yaml)
    requires forall u :: u in updates ==> SingleLineRepo(u)
    requires ApplyUpdates(text, updates, original, yaml).Ok?
    ensures |Split(ApplyUpdates(text, updates, original, yaml).value)| == |Split(text)| + AddedLines(updates, original)
    decreases |updates|
  {
    if updates != [] {
      var u := updates[0];
      assert u in updates;
      var exists_ := RepoExists(original, u.repo);
      var tree := yaml.nodes(text);
      var next := AddHookSpec(u, exists_, text, tree).value;
      if exists_ {
        AddHookExistingRepo(u, text, tree);
      } else {
        AddHookNewRepo(u, text, tree);
      }
      assert forall v :: v in updates[1..] ==> v in updates;
      ApplyUpdatesLineCount(next, updates[1..], original, yaml);
    }
  }

  /**
   * When every update declares a new repo, the edits only append: the text a
   * run starts from is a prefix of what it produces.
   */
  lemma {:induction false} ApplyUpdatesAppendOnly(text: string, updates: seq<Repo>, original: seq<Repo>, yaml: Yaml)
    requires forall u :: u in updates ==> !RepoExists(original, u.repo)
    requires ApplyUpdates(text, updates, original, yaml).Ok?
    ensures var final := ApplyUpdates(text, updates, original, yaml).value;
            |text| <= |final| && final[..|text|] == text
    decreases |updates|
  {
    if updates != [] {
      assert updates[0] in updates;
      var next := AppendOnlyStep(text, updates, original, yaml);
      assert forall v :: v in updates[1..] ==> v in updates;
      ApplyUpdatesAppendOnly(next, updates[1..], original, yaml);
      var final := ApplyUpdates(next, updates[1..], original, yaml).value;
      assert final[..|next|][..|text|] == final[..|text|];
    }
  }

  /** One edit of a run that declares a new repo: it extends the text. */
  lemma AppendOnlyStep(text: string, updates: seq<Repo>, original: seq<Repo>, yaml: Yaml)
    returns (next: string)
    requires updates != [] && !RepoExists(original, updates[0].repo)
    requires ApplyUpdates(text, updates, original, yaml).Ok?
    ensures ApplyUpdates(text, updates, original, yaml) == ApplyUpdates(next, updates[1..], original, yaml)
    ensures |text| <= |next| && next[..|text|] == text
  {
    var u := updates[0];
    var tree := yaml.nodes(text);
    var step := AddHookSpec(u, false, text, tree);
    assert step.Ok?;
    AddHookNewRepo(u, text, tree);
    next := step.value;
  }
}
