/**
 * The selector half of the engine, `GetHooks`: which repos and hooks must
 * be added to a `.pre-commit-config.yaml`, given the languages detected in
 * the project and the recommended-hook catalog.
 */
module Selector {
  import opened Precommit
  import opened GoStrings
  import opened RepoSort

  // ---------------------------------------------------------------------
  // Hooks already present in the document
  // ---------------------------------------------------------------------

  /** The ids of a list of hooks. */
  function IdsOf(hooks: seq<Hook>): set<string>
  {
    set h | h in hooks :: h.id
  }

  /** Every hook id declared in the document, whichever repo declares it. */
  function HookIds(repos: seq<Repo>): set<string>
  {
    set r, h | r in repos && h in r.hooks :: h.id
  }

  lemma HookIdsSnoc(repos: seq<Repo>, r: Repo)
    ensures HookIds(repos + [r]) == HookIds(repos) + IdsOf(r.hooks)
  {
    var a, b := HookIds(repos + [r]), HookIds(repos) + IdsOf(r.hooks);
    forall id | id in a ensures id in b {
      var r', h :| r' in repos + [r] && h in r'.hooks && h.id == id;
    }
    forall id | id in b ensures id in a {
      if id in IdsOf(r.hooks) {
        var h :| h in r.hooks && h.id == id;
        assert r in repos + [r];
      } else {
        var r', h :| r' in repos && h in r'.hooks && h.id == id;
        assert r' in repos + [r];
      }
    }
  }

  /** The set `alreadyPresentHooks` starts as: one entry per hook of every repo. */
  method CollectPresent(repos: seq<Repo>) returns (present: set<string>)
    ensures present == HookIds(repos)
  {
    present := {};
    for i := 0 to |repos|
      invariant present == HookIds(repos[..i])
    {
      var hooks := repos[i].hooks;
      for j := 0 to |hooks|
        invariant present == HookIds(repos[..i]) + IdsOf(hooks[..j])
      {
        assert hooks[..j + 1] == hooks[..j] + [hooks[j]];
        present := present + {hooks[j].id};
      }
      assert hooks[..|hooks|] == hooks;
      assert repos[..i + 1] == repos[..i] + [repos[i]];
      HookIdsSnoc(repos[..i], repos[i]);
    }
    assert repos[..|repos|] == repos;
  }

  // ---------------------------------------------------------------------
  // Staging the first catalog repo of each detected language
  // ---------------------------------------------------------------------

  /** `alreadyPresentHooks` and `newHooks` between two languages. */
  datatype Staging = Staging(present: set<string>, staged: map<string, Repo>)

  /** Every staged repo is filed under its own URL. */
  predicate KeyedByRepo(staged: map<string, Repo>)
  {
    forall url :: url in staged ==> staged[url].repo == url
  }

  /**
   * The catalog can be indexed for every detected language: a supported
   * language has a first repo, and that repo has a first hook.
   */
  predicate Indexable(catalog: Catalog, langs: seq<string>)
  {
    forall l :: l in langs && l in catalog ==> |catalog[l]| > 0 && |catalog[l][0].hooks| > 0
  }

  /**
   * Whether `later` extends `st`: the present-set only grows, and every
   * staged repo keeps its URL and `rev` while hooks are only appended to it.
   */
  predicate Extends(later: Staging, st: Staging)
  {
    && st.present <= later.present
    && st.staged.Keys <= later.staged.Keys
    && forall url :: url in st.staged ==>
         && later.staged[url].repo == st.staged[url].repo
         && later.staged[url].rev == st.staged[url].rev
         && st.staged[url].hooks <= later.staged[url].hooks
  }

  /** One pass of the language loop. */
  function StageLanguage(catalog: Catalog, lang: string, st: Staging): (r: Result<Staging, Error>)
    ensures r.Err? <==> lang in catalog && !Indexable(catalog, [lang])
    ensures r.Err? ==> r.error == IndexPanic
    ensures r.Ok? ==> Extends(r.value, st)
  {
    if lang !in catalog then Ok(st)
    else if |catalog[lang]| == 0 || |catalog[lang][0].hooks| == 0 then Err(IndexPanic)
    else
      var entry := catalog[lang][0];
      if entry.hooks[0].id in st.present then Ok(st)
      else
        var merged :=
          if entry.repo in st.staged
          then st.staged[entry.repo].(hooks := st.staged[entry.repo].hooks + entry.hooks)
          else entry;
        Ok(Staging(st.present + {entry.hooks[0].id}, st.staged[entry.repo := merged]))
  }

  /** The language loop over `langs`, in order, stopping at a panic. */
  function StageAll(catalog: Catalog, langs: seq<string>, st: Staging): (r: Result<Staging, Error>)
    ensures r.Err? ==> r.error == IndexPanic
    ensures r.Ok? ==> Extends(r.value, st)
    decreases |langs|
  {
    if langs == [] then Ok(st)
    else
      match StageLanguage(catalog, langs[0], st)
      case Err(e) => Err(e)
      case Ok(next) => StageAll(catalog, langs[1..], next)
  }

  /** The language loop as the source runs it, over two mutable maps. */
  method StageLanguages(catalog: Catalog, langs: seq<string>, present: set<string>)
    returns (r: Result<Staging, Error>)
    ensures r == StageAll(catalog, langs, Staging(present, map[]))
  {
    var alreadyPresent := present;
    var newHooks: map<string, Repo> := map[];
    for i := 0 to |langs|
      invariant StageAll(catalog, langs[i..], Staging(alreadyPresent, newHooks))
             == StageAll(catalog, langs, Staging(present, map[]))
    {
      assert langs[i..][1..] == langs[i + 1..];
      var lang := langs[i];
      if lang !in catalog {
        continue;
      }
      if |catalog[lang]| == 0 || |catalog[lang][0].hooks| == 0 {
        return Err(IndexPanic);
      }
      var entry := catalog[lang][0];
      if entry.hooks[0].id !in alreadyPresent {
        if entry.repo in newHooks {
          var repo := newHooks[entry.repo];
          repo := repo.(hooks := repo.hooks + entry.hooks);
          newHooks := newHooks[entry.repo := repo];
        } else {
          newHooks := newHooks[entry.repo := entry];
        }
        alreadyPresent := alreadyPresent + {entry.hooks[0].id};
      }
    }
    return Ok(Staging(alreadyPresent, newHooks));
  }

  // A reference description of the staging, independent of the map updates:
  // first the list of catalog repos that get staged, then their grouping by URL.

  /** The first catalog repo of every language that gets staged, in language order. */
  function StagedEntries(catalog: Catalog, langs: seq<string>, present: set<string>): seq<Repo>
    requires Indexable(catalog, langs)
    decreases |langs|
  {
    if langs == [] then []
    else
      assert Indexable(catalog, langs[1..]) by {
        forall l | l in langs[1..] ensures l in langs { }
      }
      if langs[0] !in catalog then StagedEntries(catalog, langs[1..], present)
      else
        var e := catalog[langs[0]][0];
        if e.hooks[0].id in present then StagedEntries(catalog, langs[1..], present)
        else [e] + StagedEntries(catalog, langs[1..], present + {e.hooks[0].id})
  }

  /** The first hook ids of a list of repos. */
  function FirstIds(entries: seq<Repo>): set<string>
  {
    set e | e in entries && |e.hooks| > 0 :: e.hooks[0].id
  }

  /** The hooks of all entries with URL `url`, concatenated in order. */
  function HooksOfRepo(entries: seq<Repo>, url: string): seq<Hook>
  {
    if entries == [] then []
    else (if entries[0].repo == url then entries[0].hooks else []) + HooksOfRepo(entries[1..], url)
  }

  /** The `rev` of the first entry with URL `url`. */
  function FirstRev(entries: seq<Repo>, url: string): string
  {
    if entries == [] then ""
    else if entries[0].repo == url then entries[0].rev
    else FirstRev(entries[1..], url)
  }

  /** The URLs of a list of repos. */
  function Urls(entries: seq<Repo>): set<string>
  {
    set e | e in entries :: e.repo
  }

  /**
   * `staged` holds one repo per URL of `entries`, with the `rev` of the
   * first entry of that URL and the hooks of all of them in order.
   */
  predicate GroupedBy(staged: map<string, Repo>, entries: seq<Repo>)
  {
    && staged.Keys == Urls(entries)
    && forall url :: url in staged ==>
         staged[url] == Repo(url, FirstRev(entries, url), HooksOfRepo(entries, url))
  }

  lemma {:induction false} HooksOfRepoSnoc(entries: seq<Repo>, e: Repo, url: string)
    ensures HooksOfRepo(entries + [e], url)
         == HooksOfRepo(entries, url) + (if e.repo == url then e.hooks else [])
  {
    if entries != [] {
      assert (entries + [e])[1..] == entries[1..] + [e];
      HooksOfRepoSnoc(entries[1..], e, url);
    }
  }

  lemma {:induction false} HooksOfAbsentRepo(entries: seq<Repo>, url: string)
    requires url !in Urls(entries)
    ensures HooksOfRepo(entries, url) == []
  {
    if entries != [] {
      assert entries[0] in entries;
      assert Urls(entries[1..]) <= Urls(entries) by {
        forall u | u in Urls(entries[1..]) ensures u in Urls(entries) {
          var e :| e in entries[1..] && e.repo == u;
        }
      }
      HooksOfAbsentRepo(entries[1..], url);
    }
  }

  lemma {:induction false} FirstRevSnoc(entries: seq<Repo>, e: Repo, url: string)
    ensures FirstRev(entries + [e], url)
         == if url in Urls(entries) then FirstRev(entries, url)
            else if e.repo == url then e.rev else ""
  {
    if entries != [] {
      assert (entries + [e])[1..] == entries[1..] + [e];
      assert entries[0] in entries;
      assert Urls(entries) == {entries[0].repo} + Urls(entries[1..]) by {
        assert entries == [entries[0]] + entries[1..];
      }
      FirstRevSnoc(entries[1..], e, url);
    }
  }

  /** One staging step extends the grouping by one entry. */
  lemma GroupedBySnoc(staged: map<string, Repo>, entries: seq<Repo>, e: Repo)
    requires GroupedBy(staged, entries)
    ensures var merged :=
              if e.repo in staged
              then staged[e.repo].(hooks := staged[e.repo].hooks + e.hooks)
              else e;
            GroupedBy(staged[e.repo := merged], entries + [e])
  {
    var merged :=
      if e.repo in staged
      then staged[e.repo].(hooks := staged[e.repo].hooks + e.hooks)
      else e;
    var staged' := staged[e.repo := merged];
    var entries' := entries + [e];
    assert Urls(entries') == Urls(entries) + {e.repo} by {
      forall u | u in Urls(entries') ensures u in Urls(entries) + {e.repo} {
        var x :| x in entries' && x.repo == u;
      }
      forall u | u in Urls(entries) ensures u in Urls(entries') {
        var x :| x in entries && x.repo == u;
        assert x in entries';
      }
      assert e in entries';
    }
    forall url | url in staged'
      ensures staged'[url] == Repo(url, FirstRev(entries', url), HooksOfRepo(entries', url))
    {
      HooksOfRepoSnoc(entries, e, url);
      FirstRevSnoc(entries, e, url);
      if url == e.repo && e.repo !in staged {
        HooksOfAbsentRepo(entries, url);
      }
    }
  }

  /**
   * The language loop stages exactly `StagedEntries`: the present-set grows
   * by their first hook ids only, and the staged map groups them by URL.
   */
  lemma {:induction false} StageAllGroups(
    catalog: Catalog, langs: seq<string>, present: set<string>,
    prev: seq<Repo>, staged: map<string, Repo>)
    requires Indexable(catalog, langs)
    requires GroupedBy(staged, prev)
    ensures var r := StageAll(catalog, langs, Staging(present, staged));
            var entries := StagedEntries(catalog, langs, present);
            && r.Ok?
            && r.value.present == present + FirstIds(entries)
            && GroupedBy(r.value.staged, prev + entries)
    decreases |langs|
  {
    if langs == [] {
      assert prev + [] == prev;
    } else {
      var added, next := StageOne(catalog, langs, present, prev, staged);
      assert StageAll(catalog, langs, Staging(present, staged)) == StageAll(catalog, langs[1..], next);
      StageAllGroups(catalog, langs[1..], next.present, prev + added, next.staged);
      var rest := StagedEntries(catalog, langs[1..], next.present);
      ConcatAssoc(prev, added, rest);
      FirstIdsConcat(added, rest);
    }
  }

  /**
   * One pass of the language loop, against the reference: it stages the
   * entries `added` (none or one) that `StagedEntries` lists first.
   */
  lemma StageOne(
    catalog: Catalog, langs: seq<string>, present: set<string>,
    prev: seq<Repo>, staged: map<string, Repo>)
    returns (added: seq<Repo>, next: Staging)
    requires langs != [] && Indexable(catalog, langs)
    requires GroupedBy(staged, prev)
    ensures Indexable(catalog, langs[1..])
    ensures StageLanguage(catalog, langs[0], Staging(present, staged)) == Ok(next)
    ensures StagedEntries(catalog, langs, present) == added + StagedEntries(catalog, langs[1..], next.present)
    ensures next.present == present + FirstIds(added)
    ensures GroupedBy(next.staged, prev + added)
  {
    assert Indexable(catalog, langs[1..]) by {
      forall l | l in langs[1..] ensures l in langs { }
    }
    var lang := langs[0];
    if lang !in catalog || catalog[lang][0].hooks[0].id in present {
      added, next := [], Staging(present, staged);
      assert prev + [] == prev;
      assert [] + StagedEntries(catalog, langs[1..], present) == StagedEntries(catalog, langs[1..], present);
      assert FirstIds(added) == {};
    } else {
      var e := catalog[lang][0];
      var merged :=
        if e.repo in staged
        then staged[e.repo].(hooks := staged[e.repo].hooks + e.hooks)
        else e;
      added, next := [e], Staging(present + {e.hooks[0].id}, staged[e.repo := merged]);
      GroupedBySnoc(staged, prev, e);
      assert e in added;
      assert FirstIds(added) == {e.hooks[0].id};
    }
  }

  /** The first ids of two lists of repos together. */
  lemma FirstIdsConcat(a: seq<Repo>, b: seq<Repo>)
    ensures FirstIds(a + b) == FirstIds(a) + FirstIds(b)
  {
    forall x | x in FirstIds(a + b) ensures x in FirstIds(a) + FirstIds(b) {
      var y :| y in a + b && |y.hooks| > 0 && y.hooks[0].id == x;
      if y in a { assert x in FirstIds(a); } else { assert x in FirstIds(b); }
    }
    forall x | x in FirstIds(a) + FirstIds(b) ensures x in FirstIds(a + b) {
      if x in FirstIds(a) {
        var y :| y in a && |y.hooks| > 0 && y.hooks[0].id == x;
        assert y in a + b;
      } else {
        var y :| y in b && |y.hooks| > 0 && y.hooks[0].id == x;
        assert y in a + b;
      }
    }
  }

  /** The language loop panics exactly when some supported language has an empty catalog entry. */
  lemma {:induction false} StageAllPanics(catalog: Catalog, langs: seq<string>, st: Staging)
    ensures StageAll(catalog, langs, st).Err? <==> !Indexable(catalog, langs)
    ensures StageAll(catalog, langs, st).Err? ==> StageAll(catalog, langs, st) == Err(IndexPanic)
    decreases |langs|
  {
    if langs != [] {
      assert forall l :: l in langs <==> l == langs[0] || l in langs[1..] by {
        assert langs == [langs[0]] + langs[1..];
      }
      match StageLanguage(catalog, langs[0], st)
      case Err(_) =>
      case Ok(next) => StageAllPanics(catalog, langs[1..], next);
    }
  }

  /** A language is staged only when its first hook is absent, and no first hook is staged twice. */
  lemma {:induction false} StagedEntriesFresh(catalog: Catalog, langs: seq<string>, present: set<string>)
    requires Indexable(catalog, langs)
    ensures forall e :: e in StagedEntries(catalog, langs, present) ==>
              |e.hooks| > 0 && e.hooks[0].id !in present
    ensures forall i, j :: 0 <= i < j < |StagedEntries(catalog, langs, present)| ==>
              StagedEntries(catalog, langs, present)[j].hooks[0].id
              != StagedEntries(catalog, langs, present)[i].hooks[0].id
    decreases |langs|
  {
    if langs != [] {
      assert Indexable(catalog, langs[1..]) by {
        forall l | l in langs[1..] ensures l in langs { }
      }
      if langs[0] !in catalog {
        assert StagedEntries(catalog, langs, present) == StagedEntries(catalog, langs[1..], present);
        StagedEntriesFresh(catalog, langs[1..], present);
      } else {
        var e := catalog[langs[0]][0];
        if e.hooks[0].id in present {
          assert StagedEntries(catalog, langs, present) == StagedEntries(catalog, langs[1..], present);
          StagedEntriesFresh(catalog, langs[1..], present);
        } else {
          var rest := StagedEntries(catalog, langs[1..], present + {e.hooks[0].id});
          assert StagedEntries(catalog, langs, present) == [e] + rest;
          StagedEntriesFresh(catalog, langs[1..], present + {e.hooks[0].id});
        }
      }
    }
  }

  /** Nothing is staged exactly when every supported language's first hook is already present. */
  lemma {:induction false} StagedEntriesEmpty(catalog: Catalog, langs: seq<string>, present: set<string>)
    requires Indexable(catalog, langs)
    ensures StagedEntries(catalog, langs, present) == [] <==>
            forall l :: l in langs && l in catalog ==> catalog[l][0].hooks[0].id in present
    decreases |langs|
  {
    if langs != [] {
      assert forall l :: l in langs <==> l == langs[0] || l in langs[1..] by {
        assert langs == [langs[0]] + langs[1..];
      }
      assert Indexable(catalog, langs[1..]);
      StagedEntriesEmpty(catalog, langs[1..], present);
    }
  }

  // ---------------------------------------------------------------------
  // Common repos
  // ---------------------------------------------------------------------

  /** The hooks whose id is not present, in their original order. */
  function FilterAbsent(hooks: seq<Hook>, present: set<string>): (r: seq<Hook>)
    ensures |r| <= |hooks|
    ensures forall h :: h in r <==> h in hooks && h.id !in present
  {
    if hooks == [] then []
    else
      var init, last := hooks[..|hooks| - 1], hooks[|hooks| - 1];
      assert hooks == init + [last];
      FilterAbsent(init, present) + (if last.id in present then [] else [last])
  }

  /**
   * Every common repo with its present hooks removed, in catalog order,
   * leaving out those with no hook left; the present-set is not updated.
   */
  function KeepCommon(common: seq<Repo>, present: set<string>): (r: seq<Repo>)
    ensures |r| <= |common|
    ensures forall k :: k in r ==>
              && k.hooks != []
              && (forall h :: h in k.hooks ==> h.id !in present)
              && exists c :: c in common && k == c.(hooks := FilterAbsent(c.hooks, present))
    ensures forall c, h :: c in common && h in c.hooks && h.id !in present ==>
              c.(hooks := FilterAbsent(c.hooks, present)) in r
  {
    if common == [] then []
    else
      var init, last := common[..|common| - 1], common[|common| - 1];
      assert common == init + [last];
      var kept := FilterAbsent(last.hooks, present);
      KeepCommon(init, present) + (if kept == [] then [] else [last.(hooks := kept)])
  }

  lemma ConcatAssoc<T>(x: seq<T>, y: seq<T>, z: seq<T>)
    ensures x + y + z == x + (y + z)
  {
  }

  /**
   * Filtering keeps the original order: filtering a concatenation is
   * concatenating the filtered parts.
   */
  lemma {:induction false} FilterAbsentConcat(a: seq<Hook>, b: seq<Hook>, present: set<string>)
    ensures FilterAbsent(a + b, present) == FilterAbsent(a, present) + FilterAbsent(b, present)
    decreases |b|
  {
    if b == [] {
      assert a + b == a;
    } else {
      var init, last := b[..|b| - 1], b[|b| - 1];
      assert b == init + [last];
      assert a + b == (a + init) + [last];
      assert (a + b)[..|a + b| - 1] == a + init && (a + b)[|a + b| - 1] == last;
      var tail := if last.id in present then [] else [last];
      assert FilterAbsent(a + b, present) == FilterAbsent(a + init, present) + tail;
      assert FilterAbsent(b, present) == FilterAbsent(init, present) + tail;
      FilterAbsentConcat(a, init, present);
      ConcatAssoc(FilterAbsent(a, present), FilterAbsent(init, present), tail);
    }
  }

  /**
   * The kept common repos keep the catalog order: keeping from a
   * concatenation is concatenating what is kept from each part.
   */
  lemma {:induction false} KeepCommonConcat(a: seq<Repo>, b: seq<Repo>, present: set<string>)
    ensures KeepCommon(a + b, present) == KeepCommon(a, present) + KeepCommon(b, present)
    decreases |b|
  {
    if b == [] {
      assert a + b == a;
    } else {
      var init, last := b[..|b| - 1], b[|b| - 1];
      assert b == init + [last];
      assert a + b == (a + init) + [last];
      assert (a + b)[..|a + b| - 1] == a + init && (a + b)[|a + b| - 1] == last;
      var kept := FilterAbsent(last.hooks, present);
      var tail := if kept == [] then [] else [last.(hooks := kept)];
      assert KeepCommon(a + b, present) == KeepCommon(a + init, present) + tail;
      assert KeepCommon(b, present) == KeepCommon(init, present) + tail;
      KeepCommonConcat(a, init, present);
      ConcatAssoc(KeepCommon(a, present), KeepCommon(init, present), tail);
    }
  }

  /** The common-repo loop as the source runs it. */
  method AddCommon(common: seq<Repo>, present: set<string>) returns (repos: seq<Repo>)
    ensures repos == KeepCommon(common, present)
  {
    repos := [];
    for i := 0 to |common|
      invariant repos == KeepCommon(common[..i], present)
    {
      var tempRepo, hookPresent := FilterRepo(common[i], present);
      KeepCommonSnoc(common, i, present);
      if hookPresent {
        repos := repos + [tempRepo];
      }
    }
    assert common[..|common|] == common;
  }

  /** The hook loop inside the common-repo loop: a copy of `repo` without its present hooks. */
  method FilterRepo(repo: Repo, present: set<string>) returns (tempRepo: Repo, hookPresent: bool)
    ensures tempRepo == repo.(hooks := FilterAbsent(repo.hooks, present))
    ensures hookPresent <==> tempRepo.hooks != []
  {
    tempRepo := repo.(hooks := []);
    hookPresent := false;
    for j := 0 to |repo.hooks|
      invariant tempRepo == repo.(hooks := FilterAbsent(repo.hooks[..j], present))
      invariant hookPresent <==> tempRepo.hooks != []
    {
      assert repo.hooks[..j + 1] == repo.hooks[..j] + [repo.hooks[j]];
      assert repo.hooks[..j + 1][..j] == repo.hooks[..j];
      var hook := repo.hooks[j];
      if hook.id !in present {
        tempRepo := tempRepo.(hooks := tempRepo.hooks + [hook]);
        hookPresent := true;
      }
    }
    assert repo.hooks[..|repo.hooks|] == repo.hooks;
  }

  lemma KeepCommonSnoc(common: seq<Repo>, i: nat, present: set<string>)
    requires i < |common|
    ensures var kept := FilterAbsent(common[i].hooks, present);
            KeepCommon(common[..i + 1], present)
            == KeepCommon(common[..i], present) + (if kept == [] then [] else [common[i].(hooks := kept)])
  {
    assert common[..i + 1][..i] == common[..i];
  }

  // ---------------------------------------------------------------------
  // Collecting the staged repos and sorting
  // ---------------------------------------------------------------------

  /** The repos filed under the keys in `keys`. */
  function ValuesAt(staged: map<string, Repo>, keys: set<string>): set<Repo>
    requires keys <= staged.Keys
  {
    set k | k in keys :: staged[k]
  }

  /**
   * Appends every staged repo to `repos`, visiting the map in an order the
   * caller cannot rely on, as Go's map iteration does.
   */
  method AppendStaged(repos: seq<Repo>, staged: map<string, Repo>) returns (r: seq<Repo>)
    requires KeyedByRepo(staged)
    ensures multiset(r) == multiset(repos) + multiset(staged.Values)
  {
    r := repos;
    var keys := staged.Keys;
    assert ValuesAt(staged, keys) == staged.Values;
    while keys != {}
      invariant keys <= staged.Keys
      invariant multiset(r) + multiset(ValuesAt(staged, keys)) == multiset(repos) + multiset(staged.Values)
      decreases keys
    {
      var k :| k in keys;
      var rest := keys - {k};
      assert ValuesAt(staged, keys) == ValuesAt(staged, rest) + {staged[k]};
      assert staged[k] !in ValuesAt(staged, rest);
      r := r + [staged[k]];
      keys := rest;
    }
  }

  /**
   * What `GetHooks` returns once the document and the catalog are read:
   * sorted by URL, and a permutation of the kept common repos and the staged
   * language repos.
   */
  ghost predicate IsSelection(out: seq<Repo>, catalog: Catalog, st: Staging)
  {
    && SortedByRepo(out)
    && multiset(out) == multiset(KeepCommon(CommonRepos(catalog), st.present)) + multiset(st.staged.Values)
  }

  /**
   * `GetHooks`: `content` is the request's document, read by `yaml`;
   * `configFile` is the parsed catalog file (none when it cannot be read).
   */
  method GetHooks(content: string, yaml: Yaml, languages: seq<string>, configFile: Option<Catalog>)
    returns (r: Result<seq<Repo>, Error>)
    ensures yaml.decode(content).None? ==> r == Err(ParseError)
    ensures yaml.decode(content).Some? && configFile.None? ==> r == Err(ConfigFileError)
    ensures yaml.decode(content).Some? && configFile.Some? ==>
              var st := StageAll(configFile.value, languages,
                                 Staging(HookIds(yaml.decode(content).value), map[]));
              && (st.Err? ==> r == Err(IndexPanic))
              && (st.Ok? ==> r.Ok? && IsSelection(r.value, configFile.value, st.value))
  {
    var document := yaml.decode(content);
    if document.None? {
      return Err(ParseError);
    }
    var alreadyPresent := CollectPresent(document.value);
    if configFile.None? {
      return Err(ConfigFileError);
    }
    var catalog := configFile.value;
    var staging := StageLanguages(catalog, languages, alreadyPresent);
    if staging.Err? {
      StageAllPanics(catalog, languages, Staging(alreadyPresent, map[]));
      return Err(staging.error);
    }
    var st := staging.value;
    StageAllPanics(catalog, languages, Staging(alreadyPresent, map[]));
    StageAllGroups(catalog, languages, alreadyPresent, [], map[]);
    var repos := AddCommon(CommonRepos(catalog), st.present);
    repos := AppendStaged(repos, st.staged);
    return Ok(Sort(repos));
  }

  // ---------------------------------------------------------------------
  // Properties of the selection
  // ---------------------------------------------------------------------

  /**
   * The selection is empty exactly when the document already holds the first
   * hook of every supported detected language and every common hook: running
   * the engine again on such a document adds nothing.
   */
  lemma SelectionEmptyIff(catalog: Catalog, langs: seq<string>, present: set<string>)
    requires Indexable(catalog, langs)
    ensures StageAll(catalog, langs, Staging(present, map[])).Ok?
    ensures var st := StageAll(catalog, langs, Staging(present, map[])).value;
            (st.staged == map[] && KeepCommon(CommonRepos(catalog), st.present) == []) <==>
            (&& (forall l :: l in langs && l in catalog ==> catalog[l][0].hooks[0].id in present)
             && (forall c, h :: c in CommonRepos(catalog) && h in c.hooks ==> h.id in present))
  {
    StagedNoneIff(catalog, langs, present);
    var st := StageAll(catalog, langs, Staging(present, map[])).value;
    KeepCommonEmptyIff(CommonRepos(catalog), st.present);
  }

  /** Nothing is staged exactly when every supported language's first hook is present; then the present-set is unchanged. */
  lemma StagedNoneIff(catalog: Catalog, langs: seq<string>, present: set<string>)
    requires Indexable(catalog, langs)
    ensures StageAll(catalog, langs, Staging(present, map[])).Ok?
    ensures var st := StageAll(catalog, langs, Staging(present, map[])).value;
            && (st.staged == map[] <==> forall l :: l in langs && l in catalog ==> catalog[l][0].hooks[0].id in present)
            && (st.staged == map[] ==> st.present == present)
  {
    StageAllGroups(catalog, langs, present, [], map[]);
    StagedEntriesEmpty(catalog, langs, present);
    var entries := StagedEntries(catalog, langs, present);
    var st := StageAll(catalog, langs, Staging(present, map[])).value;
    assert [] + entries == entries;
    if entries != [] {
      assert entries[0] in entries;
      assert entries[0].repo in st.staged;
    } else {
      assert FirstIds(entries) == {};
      assert st.staged.Keys == {};
    }
  }

  /** No common repo is kept exactly when every common hook is present. */
  lemma KeepCommonEmptyIff(common: seq<Repo>, present: set<string>)
    ensures KeepCommon(common, present) == [] <==>
            forall c, h :: c in common && h in c.hooks ==> h.id in present
  {
    var kept := KeepCommon(common, present);
    if kept != [] {
      var k := kept[0];
      assert k in kept;
      var c :| c in common && k == c.(hooks := FilterAbsent(c.hooks, present));
      assert k.hooks[0] in c.hooks;
    }
  }

  /**
   * Every hook id the selection adds is new to the document: a common hook
   * is kept only when absent after staging, and a staged language's first
   * hook only when absent before it.
   */
  lemma SelectionFirstHooksAbsent(catalog: Catalog, langs: seq<string>, present: set<string>)
    requires Indexable(catalog, langs)
    ensures StageAll(catalog, langs, Staging(present, map[])).Ok?
    ensures var st := StageAll(catalog, langs, Staging(present, map[])).value;
            && present <= st.present
            && (forall k, h :: k in KeepCommon(CommonRepos(catalog), st.present) && h in k.hooks ==>
                  h.id !in st.present)
            && (forall e :: e in StagedEntries(catalog, langs, present) ==>
                  |e.hooks| > 0 && e.hooks[0].id !in present && e.hooks[0].id in st.present)
  {
    StageAllGroups(catalog, langs, present, [], map[]);
    StagedEntriesFresh(catalog, langs, present);
    var entries := StagedEntries(catalog, langs, present);
    forall e | e in entries ensures |e.hooks| > 0 && e.hooks[0].id !in present && e.hooks[0].id in FirstIds(entries) {
      var i :| 0 <= i < |entries| && entries[i] == e;
    }
  }
}
