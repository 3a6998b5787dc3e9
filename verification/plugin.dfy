/** The plugin object returned by `caveman(...)`: its `resolveId` and `load`
    hooks, with the state the instance keeps between loads (the partial name
    map and the partial path cache). */
module Plugin {
  import opened Base
  import opened Postfix
  import opened Emit
  import opened Partials
  import Camel
  import Resolver

  /** The collaborators the plugin calls but does not define. */
  datatype Host = Host(
    readFile: string -> Option<string>,       // fs `readFile(path, 'utf8')`; None when it rejects
    compile: string -> Option<string>,        // `Caveman.compile`; None when it throws
    openTag: string,                          // `Caveman.options.openTag`
    extname: string -> string,                // node `path.extname`
    dirname: string -> string,                // node `path.dirname`
    probe: Resolver.Probe,                    // `path.join`, `fs.access`, `Promise.any` timing
    resolve: (string, Option<string>) -> Option<string>)  // `this.resolve(...)?.id`

  /** The plugin options: the `createFilter(include, exclude)` predicate and
      the extra partial search paths. */
  datatype Config = Config(filter: string -> bool, partialPaths: seq<string>)

  /** What one plugin instance remembers across loads. */
  datatype State = State(names: NameMap, cache: map<string, string>)

  /** The state the instance starts with: both maps empty. */
  const Initial := State([], map[])

  predicate Valid(st: State) {
    DistinctNames(st.names) && AliasesDerived(st.names)
  }

  datatype LoadError = ReadFailed | CompileFailed | PartialNotFound

  /** `undefined` when the filter rejects the id, the module code, or the
      error the hook throws. */
  datatype Outcome = NotHandled | Loaded(code: string) | Failed(error: LoadError)

  datatype Step = Step(outcome: Outcome, state: State)

  /** `resolveId(id, importer)`: ids whose `extname` does not contain
      `.html` are declined; otherwise the host resolves the path without its
      postfix, and the postfix is put back on the host's answer. */
  function ResolveId(host: Host, id: string, importer: Option<string>): (r: Option<string>)
    ensures r.None? <==>
      !Contains(host.extname(id), ".html") || host.resolve(Split(id).path, importer).None?
    ensures r.Some? ==> exists resolved ::
      host.resolve(Split(id).path, importer) == Some(resolved) && r.value == resolved + Split(id).postfix
  {
    if !Contains(host.extname(id), ".html") then None
    else
      var parts := Split(id);
      match host.resolve(parts.path, importer)
      case None => None
      case Some(resolved) => Some(resolved + parts.postfix)
  }

  /** When the host's answer is a plain path, `load` splits the resolved id
      back into exactly that path and the original postfix. */
  lemma {:induction false} ResolveIdRoundTrip(host: Host, id: string, importer: Option<string>, resolved: string)
    requires Contains(host.extname(id), ".html")
    requires host.resolve(Split(id).path, importer) == Some(resolved)
    requires Unmarked(resolved)
    ensures ResolveId(host, id, importer).Some?
    ensures Split(ResolveId(host, id, importer).value) == IdParts(resolved, Split(id).postfix)
  {
    SplitUnique(resolved, Split(id).postfix);
  }

  /** The directories searched for a template's partials: its own directory
      first, then the configured ones. */
  function LookupDirs(host: Host, cfg: Config, filePath: string): seq<string> {
    [host.dirname(filePath)] + cfg.partialPaths
  }

  /** `import ${importName} from "${partialPath}${postfix}"`. */
  function ImportLine(alias: string, path: string, postfix: string): string {
    "import " + alias + " from \"" + path + postfix + "\""
  }

  /** One import line per name-map entry, in map order. */
  function ImportLines(m: NameMap, paths: seq<string>, postfix: string): seq<string>
    requires |paths| == |m|
  {
    seq(|m|, k requires 0 <= k < |m| => ImportLine(m[k].alias, paths[k], postfix))
  }

  /** `importBlock + '\n\n' + compiled`. */
  function Assemble(lines: seq<string>, body: string): string {
    JoinWith(lines, "\n\n") + "\n\n" + body
  }

  function Values(rs: seq<Option<string>>): seq<string>
    requires forall k :: 0 <= k < |rs| ==> rs[k].Some?
  {
    seq(|rs|, k requires 0 <= k < |rs| => rs[k].value)
  }

  /** The name map after the calls of `compiled` are recorded. */
  function LinkNames(st: State, compiled: string): NameMap {
    Record(st.names, RewriteCalls(compiled).names)
  }

  /** The resolution of every entry of `m` for the template at `parts.path`. */
  function LinkResults(host: Host, cfg: Config, st: State, parts: IdParts, m: NameMap): (rs: seq<Option<string>>)
    ensures |rs| == |m|
  {
    Resolver.ResolveAll(m, st.cache, LookupDirs(host, cfg, parts.path), host.extname(parts.path), host.probe)
  }

  predicate AllResolved(rs: seq<Option<string>>) {
    forall k :: 0 <= k < |rs| ==> rs[k].Some?
  }

  /** The partial branch of `load` for a compiled module: rewrite the calls,
      record their names in the shared map, resolve every name in the map,
      and either assemble the import block or fail. */
  function Link(host: Host, cfg: Config, st: State, parts: IdParts, compiled: string): Step {
    var m := LinkNames(st, compiled);
    var rs := LinkResults(host, cfg, st, parts, m);
    var next := State(m, Resolver.CacheAfter(st.cache, m, rs));
    if AllResolved(rs) then
      Step(Loaded(Assemble(ImportLines(m, Values(rs), parts.postfix), RewriteCalls(compiled).code)), next)
    else
      Step(Failed(PartialNotFound), next)
  }

  /** The partial branch only fails for a missing partial; it records every
      called name under its alias, keeps earlier entries in their places and
      earlier cache entries with their paths, and keeps the state valid. */
  lemma {:induction false} LinkKeepsState(host: Host, cfg: Config, st: State, parts: IdParts, compiled: string)
    ensures var s := Link(host, cfg, st, parts, compiled);
      && (s.outcome.Loaded? || s.outcome == Failed(PartialNotFound))
      && (forall n :: n in RewriteCalls(compiled).names ==> Lookup(s.state.names, n) == Some(Camel.Alias(n)))
      && (forall i :: 0 <= i < |st.names| ==> i < |s.state.names| && s.state.names[i].name == st.names[i].name)
      && (forall n :: n in st.cache ==> n in s.state.cache && s.state.cache[n] == st.cache[n])
      && (Valid(st) ==> Valid(s.state))
  {
    var m := LinkNames(st, compiled);
    var rs := LinkResults(host, cfg, st, parts, m);
    var c := Resolver.CacheAfter(st.cache, m, rs);
    RecordWellFormed(st.names, RewriteCalls(compiled).names);
  }

  /** `load(id)`. */
  function Load(host: Host, cfg: Config, st: State, id: string): (s: Step)
    ensures s.outcome == NotHandled <==> !cfg.filter(id)
    ensures s.outcome == Failed(ReadFailed) <==>
      cfg.filter(id) && host.readFile(Split(id).path).None?
    ensures s.outcome == Failed(CompileFailed) <==>
      && cfg.filter(id)
      && host.readFile(Split(id).path).Some?
      && ContainsDirectives(host.readFile(Split(id).path).value, host.openTag)
      && host.compile(host.readFile(Split(id).path).value).None?
    ensures s.outcome.Failed? && s.outcome.error != PartialNotFound ==> s.state == st
    ensures forall i :: 0 <= i < |st.names| ==> i < |s.state.names| && s.state.names[i].name == st.names[i].name
    ensures forall n :: n in st.cache ==> n in s.state.cache && s.state.cache[n] == st.cache[n]
    ensures Valid(st) ==> Valid(s.state)
  {
    if !cfg.filter(id) then Step(NotHandled, st)
    else
      var parts := Split(id);
      match host.readFile(parts.path)
      case None => Step(Failed(ReadFailed), st)
      case Some(content) =>
        if !ContainsDirectives(content, host.openTag) then Step(Loaded(EmitString(content)), st)
        else
          match host.compile(content)
          case None => Step(Failed(CompileFailed), st)
          case Some(body) =>
            var compiled := EmitCaveman(body);
            if !HasMacroHead(compiled) then Step(Loaded(compiled), st)
            else
              LinkKeepsState(host, cfg, st, parts, compiled);
              Link(host, cfg, st, parts, compiled)
  }

  /** The id reaches the directive branch with this content and compiled body. */
  predicate Compiles(host: Host, cfg: Config, id: string, content: string, body: string) {
    && cfg.filter(id)
    && host.readFile(Split(id).path) == Some(content)
    && ContainsDirectives(content, host.openTag)
    && host.compile(content) == Some(body)
  }

  /** An assembled module opens with an import line or with the blank line
      after an empty import block: its second character is never a space. */
  lemma {:induction false} AssembleStart(lines: seq<string>, body: string)
    requires forall k :: 0 <= k < |lines| ==> |lines[k]| >= 2 && lines[k][..2] == "im"
    ensures |Assemble(lines, body)| >= 2 && Assemble(lines, body)[1] != ' '
  {
    var block := JoinWith(lines, "\n\n");
    var code := Assemble(lines, body);
    assert code == block + ("\n\n" + body);
    if |lines| == 0 {
      assert code[1] == '\n';
    } else {
      JoinWithHasEveryPart(lines, "\n\n", 0);
      assert block[..|lines[0]|] == lines[0];
      assert code[1] == block[1] == lines[0][1] == 'm';
    }
  }

  /** A module from the partial branch has no space as its second
      character, unlike both emitters' scaffolds. */
  lemma {:induction false} LinkCodeStart(host: Host, cfg: Config, st: State, parts: IdParts, compiled: string)
    requires AllResolved(LinkResults(host, cfg, st, parts, LinkNames(st, compiled)))
    ensures Link(host, cfg, st, parts, compiled).outcome.Loaded?
    ensures |Link(host, cfg, st, parts, compiled).outcome.code| >= 2
    ensures Link(host, cfg, st, parts, compiled).outcome.code[1] != ' '
  {
    LinkOutput(host, cfg, st, parts, compiled);
    ImportBlockStart(LinkNames(st, compiled), LinkPaths(host, cfg, st, parts, compiled), parts.postfix,
                     RewriteCalls(compiled).code);
  }

  /** An import block followed by a module has no space as its second character. */
  lemma ImportBlockStart(m: NameMap, paths: seq<string>, postfix: string, body: string)
    requires |paths| == |m|
    ensures |Assemble(ImportLines(m, paths, postfix), body)| >= 2
    ensures Assemble(ImportLines(m, paths, postfix), body)[1] != ' '
  {
    ImportLinesStart(m, paths, postfix);
    AssembleStart(ImportLines(m, paths, postfix), body);
  }

  lemma ImportLinesStart(m: NameMap, paths: seq<string>, postfix: string)
    requires |paths| == |m|
    ensures forall k :: 0 <= k < |m| ==>
      |ImportLines(m, paths, postfix)[k]| >= 2 && ImportLines(m, paths, postfix)[k][..2] == "im"
  {
    forall k | 0 <= k < |m|
      ensures |ImportLines(m, paths, postfix)[k]| >= 2 && ImportLines(m, paths, postfix)[k][..2] == "im"
    {
      var line := ImportLines(m, paths, postfix)[k];
      assert line == "import " + (m[k].alias + " from \"" + paths[k] + postfix + "\"");
    }
  }

  /** `load` emits the plain-text module exactly when the content has no
      open tag, and that branch leaves the state alone. A compiled module,
      with or without imports, never coincides with a plain-text one. */
  lemma {:induction false} PlainBranchExactly(host: Host, cfg: Config, st: State, id: string, content: string)
    requires cfg.filter(id)
    requires host.readFile(Split(id).path) == Some(content)
    ensures Load(host, cfg, st, id).outcome == Loaded(EmitString(content))
        <==> !ContainsDirectives(content, host.openTag)
    ensures !ContainsDirectives(content, host.openTag) ==> Load(host, cfg, st, id).state == st
  {
    if ContainsDirectives(content, host.openTag) && host.compile(content).Some? {
      var body := host.compile(content).value;
      assert Compiles(host, cfg, id, content, body);
      if HasMacroHead(EmitCaveman(body)) {
        PartialBranch(host, cfg, st, id, content, body);
        LinkNotPlain(host, cfg, st, Split(id), EmitCaveman(body), content);
      } else {
        NoPartialsKeepsModule(host, cfg, st, id, content, body);
        EmittersDiffer(content, body);
      }
    }
  }

  /** The partial branch never emits a plain-text module. */
  lemma LinkNotPlain(host: Host, cfg: Config, st: State, parts: IdParts, compiled: string, content: string)
    ensures Link(host, cfg, st, parts, compiled).outcome != Loaded(EmitString(content))
  {
    PlainStart(content);
    if AllResolved(LinkResults(host, cfg, st, parts, LinkNames(st, compiled))) {
      LinkCodeStart(host, cfg, st, parts, compiled);
    } else {
      LinkFailsUnresolved(host, cfg, st, parts, compiled);
    }
  }

  /** With an unresolved entry, the partial branch fails. */
  lemma LinkFailsUnresolved(host: Host, cfg: Config, st: State, parts: IdParts, compiled: string)
    ensures !AllResolved(LinkResults(host, cfg, st, parts, LinkNames(st, compiled)))
        ==> Link(host, cfg, st, parts, compiled).outcome == Failed(PartialNotFound)
  {
  }

  /** With no `_Cr('` at a word boundary in the compiled module, `load`
      returns the module as it is and the state is untouched; running the
      replacement would not have changed it either. */
  lemma {:induction false} NoPartialsKeepsModule(host: Host, cfg: Config, st: State, id: string, content: string, body: string)
    requires Compiles(host, cfg, id, content, body)
    requires !HasMacroHead(EmitCaveman(body))
    ensures Load(host, cfg, st, id) == Step(Loaded(EmitCaveman(body)), st)
    ensures RewriteCalls(EmitCaveman(body)) == Rewrite(EmitCaveman(body), [])
  {
    NoHeadNoCalls(EmitCaveman(body));
  }

  /** With a `_Cr('` at a word boundary, `load` is the partial branch. This
      is an unfolding of `Load`'s definition, stated for callers. */
  lemma {:induction false} PartialBranch(host: Host, cfg: Config, st: State, id: string, content: string, body: string)
    requires Compiles(host, cfg, id, content, body)
    ensures HasMacroHead(EmitCaveman(body)) ==> Load(host, cfg, st, id) == Link(host, cfg, st, Split(id), EmitCaveman(body))
  {
  }

  /** Whether an entry can be resolved: its name is cached, or some
      candidate directory holds `name + extension`. */
  predicate Resolvable(host: Host, cfg: Config, st: State, parts: IdParts, name: string) {
    name in st.cache
    || exists d :: d in LookupDirs(host, cfg, parts.path)
         && host.probe.fileExists(host.probe.join(d, name + host.extname(parts.path)))
  }

  /** The partial branch fails exactly when some entry of the updated name
      map (including entries left by earlier loads) cannot be resolved. */
  lemma {:induction false} LinkFailsIffUnresolvable(host: Host, cfg: Config, st: State, parts: IdParts, compiled: string)
    ensures var s := Link(host, cfg, st, parts, compiled);
      s.outcome == Failed(PartialNotFound) <==>
      exists k :: 0 <= k < |s.state.names| && !Resolvable(host, cfg, st, parts, s.state.names[k].name)
  {
    var m := LinkNames(st, compiled);
    LinkStoresNames(host, cfg, st, parts, compiled);
    LinkFailsIffUnresolved(host, cfg, st, parts, compiled);
    ResultsResolvable(host, cfg, st, parts, m);
  }

  /** The partial branch stores the recorded name map. */
  lemma LinkStoresNames(host: Host, cfg: Config, st: State, parts: IdParts, compiled: string)
    ensures Link(host, cfg, st, parts, compiled).state.names == LinkNames(st, compiled)
  {
  }

  /** The partial branch stores the cache after every resolution. */
  lemma LinkStoresCache(host: Host, cfg: Config, st: State, parts: IdParts, compiled: string)
    ensures Link(host, cfg, st, parts, compiled).state.cache
         == Resolver.CacheAfter(st.cache, LinkNames(st, compiled), LinkResults(host, cfg, st, parts, LinkNames(st, compiled)))
  {
  }

  /** The partial branch fails exactly when some entry did not resolve. */
  lemma LinkFailsIffUnresolved(host: Host, cfg: Config, st: State, parts: IdParts, compiled: string)
    ensures Link(host, cfg, st, parts, compiled).outcome == Failed(PartialNotFound)
        <==> !AllResolved(LinkResults(host, cfg, st, parts, LinkNames(st, compiled)))
  {
    if AllResolved(LinkResults(host, cfg, st, parts, LinkNames(st, compiled))) {
      LinkOutput(host, cfg, st, parts, compiled);
    } else {
      LinkFailsUnresolved(host, cfg, st, parts, compiled);
    }
  }

  /** An entry resolves exactly when its name is resolvable. */
  lemma ResultsResolvable(host: Host, cfg: Config, st: State, parts: IdParts, m: NameMap)
    ensures forall k :: 0 <= k < |m| ==>
      (LinkResults(host, cfg, st, parts, m)[k].Some? <==> Resolvable(host, cfg, st, parts, m[k].name))
  {
  }

  /** The paths an import block may bind: a cached name's cached path
      (whatever directory the current template is in), and for any other
      name an existing `join(dir, name + extension)` over the candidate
      directories. */
  predicate PathsFit(host: Host, cfg: Config, st: State, parts: IdParts, m: NameMap, paths: seq<string>) {
    && |paths| == |m|
    && forall k :: 0 <= k < |m| ==>
         && (m[k].name in st.cache ==> paths[k] == st.cache[m[k].name])
         && (m[k].name !in st.cache ==>
               && host.probe.fileExists(paths[k])
               && exists d :: d in LookupDirs(host, cfg, parts.path)
                    && paths[k] == host.probe.join(d, m[k].name + host.extname(parts.path)))
  }

  /** The paths the partial branch resolved, one per entry of the updated
      name map. */
  function LinkPaths(host: Host, cfg: Config, st: State, parts: IdParts, compiled: string): (paths: seq<string>)
    requires AllResolved(LinkResults(host, cfg, st, parts, LinkNames(st, compiled)))
    ensures |paths| == |LinkNames(st, compiled)|
  {
    Values(LinkResults(host, cfg, st, parts, LinkNames(st, compiled)))
  }

  /** A successful partial branch emits one import line per entry of the
      whole name map, joined by blank lines, then a blank line and the
      rewritten module; each line binds the entry's alias to its resolved
      path with the template's own postfix appended. This is an unfolding
      of `Link`'s definition: the import-block format is itself what the
      plugin promises. The facts proved about that block are
      `Base.JoinWithHasEveryPart` and `AssembleImports`. */
  lemma {:induction false} LinkOutput(host: Host, cfg: Config, st: State, parts: IdParts, compiled: string)
    requires AllResolved(LinkResults(host, cfg, st, parts, LinkNames(st, compiled)))
    ensures Link(host, cfg, st, parts, compiled).outcome.Loaded?
    ensures Link(host, cfg, st, parts, compiled).outcome.code
         == Assemble(ImportLines(LinkNames(st, compiled), LinkPaths(host, cfg, st, parts, compiled), parts.postfix),
                     RewriteCalls(compiled).code)
  {
  }

  /** Every resolved path fits: cached names keep their cached path, the
      others name an existing candidate file. */
  lemma {:induction false} LinkPathsFit(host: Host, cfg: Config, st: State, parts: IdParts, compiled: string)
    requires AllResolved(LinkResults(host, cfg, st, parts, LinkNames(st, compiled)))
    ensures PathsFit(host, cfg, st, parts, LinkNames(st, compiled), LinkPaths(host, cfg, st, parts, compiled))
  {
    var m := LinkNames(st, compiled);
    var rs := LinkResults(host, cfg, st, parts, m);
    var paths := LinkPaths(host, cfg, st, parts, compiled);
    assert forall k :: 0 <= k < |m| ==> paths[k] == rs[k].value;
  }

  /** After a successful partial branch the cache maps every name of the
      name map to the path its import line uses. */
  lemma {:induction false} LinkCacheRecordsPaths(host: Host, cfg: Config, st: State, parts: IdParts, compiled: string)
    requires Valid(st)
    requires AllResolved(LinkResults(host, cfg, st, parts, LinkNames(st, compiled)))
    ensures forall k :: 0 <= k < |LinkNames(st, compiled)| ==>
      var n := LinkNames(st, compiled)[k].name;
      n in Link(host, cfg, st, parts, compiled).state.cache
      && Link(host, cfg, st, parts, compiled).state.cache[n] == LinkPaths(host, cfg, st, parts, compiled)[k]
  {
    var m := LinkNames(st, compiled);
    var rs := LinkResults(host, cfg, st, parts, m);
    LinkStoresCache(host, cfg, st, parts, compiled);
    LinkPathsAreResults(host, cfg, st, parts, compiled);
    RecordWellFormed(st.names, RewriteCalls(compiled).names);
    assert Partials.DistinctNames(m);
  }

  /** The import paths are the resolved values, entry by entry. */
  lemma LinkPathsAreResults(host: Host, cfg: Config, st: State, parts: IdParts, compiled: string)
    requires AllResolved(LinkResults(host, cfg, st, parts, LinkNames(st, compiled)))
    ensures forall k :: 0 <= k < |LinkNames(st, compiled)| ==>
      LinkPaths(host, cfg, st, parts, compiled)[k] == LinkResults(host, cfg, st, parts, LinkNames(st, compiled))[k].value
  {
  }

  /** Every entry's import binding appears in the assembled module. */
  lemma {:induction false} AssembleImports(m: NameMap, paths: seq<string>, postfix: string, body: string, i: nat)
    requires |paths| == |m|
    requires i < |m|
    ensures Contains(Assemble(ImportLines(m, paths, postfix), body), "import " + m[i].alias + " from \"")
  {
    var lines := ImportLines(m, paths, postfix);
    var block := JoinWith(lines, "\n\n");
    var needle := "import " + m[i].alias + " from \"";
    var off := JoinOffset(lines, "\n\n", i);
    JoinWithHasEveryPart(lines, "\n\n", i);
    assert lines[i] == needle + (paths[i] + postfix + "\"");
    OccursPrefix(block, needle, paths[i] + postfix + "\"", off);
    OccursExtend(block, "\n\n" + body, needle, off);
    assert Assemble(lines, body) == block + ("\n\n" + body);
    ContainsIffOccurs(Assemble(lines, body), needle);
  }

  /** The name map is shared by all loads of one instance: a successful
      partial branch imports every partial recorded by earlier loads too,
      under the alias recorded for it, whether or not this template calls it. */
  lemma {:induction false} EarlierPartialsImported(host: Host, cfg: Config, st: State, parts: IdParts, compiled: string, i: nat)
    requires Valid(st)
    requires i < |st.names|
    requires AllResolved(LinkResults(host, cfg, st, parts, LinkNames(st, compiled)))
    ensures Link(host, cfg, st, parts, compiled).outcome.Loaded?
    ensures Contains(Link(host, cfg, st, parts, compiled).outcome.code,
                     "import " + st.names[i].alias + " from \"")
  {
    LinkOutput(host, cfg, st, parts, compiled);
    var m := LinkNames(st, compiled);
    RecordWellFormed(st.names, RewriteCalls(compiled).names);
    assert m[i].alias == st.names[i].alias by {
      assert m[i].name == st.names[i].name;
    }
    AssembleImports(m, LinkPaths(host, cfg, st, parts, compiled), parts.postfix, RewriteCalls(compiled).code, i);
  }
}
