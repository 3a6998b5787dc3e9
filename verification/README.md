# rollup-plugin-caveman, modelled in Dafny

The plugin turns HTML templates into JavaScript modules during a Rollup
build. This project models its deterministic string pipeline in
`index.ts`:

- `resolveId` splits a module id into a file path and a `?`/`#` postfix. It
  lets Rollup resolve the path and puts the postfix back.
- `load` reads the file and checks for the template compiler's open tag.
  Plain text goes to `emitString`: quotes are escaped and line feeds are
  dropped. A template goes to `emitCaveman`.
- In a compiled template, every `_Cr('<name>',` partial call is rewritten to
  `<Alias>Template.render(`. The alias comes from `toCamelCase`. The name is
  recorded in the instance's `partialNameMap`.
- Every recorded partial is then resolved to a file. A cached name reuses
  the path in `partialPathCache`. Otherwise the resolver searches the
  template's directory and then `partialPaths`. The resolved paths become
  one `import` line each, and these lines come before the rewritten code.

Modules, one per component of `index.ts`:

- `Base` (base.dfy): the option type, the ASCII `\w` class, substring search
  (`includes`) and `Array.prototype.join`.
- `Postfix` (postfix.dfy): the `/[?#].*$/s` split.
- `Emit` (emit.dfy): `containsDirectives`, `emitString` and `emitCaveman`.
- `Camel` (camel.dfy): `toCamelCase` and the `…Template` alias.
- `Partials` (partials.dfy): the partial-call scan and replacement, and the
  name map. The name map is an insertion-ordered list of entries, like a
  JavaScript `Map`.
- `Resolver` (resolver.dfy): `getPartialPath`, the cache lookup and the
  cache update.
- `Plugin` (plugin.dfy): `resolveId`, `load`, and the state one plugin
  instance keeps between loads.

Everything outside the plugin is a parameter. `Host.readFile` is
`fs.readFile`, and `Host.compile` is `Caveman.compile`; either returns
`None` when it fails. `Host.openTag` is `Caveman.options.openTag`.
`Host.extname` and `Host.dirname` come from `node:path`. `Host.probe` holds
`path.join`, `fs.access` and the settling order of `Promise.any`.
`Host.resolve` is Rollup's `this.resolve`. `Config.filter` is the
`createFilter(include, exclude)` predicate. One `load` is one function from
a `State` (the name map and the path cache) to an outcome and a new `State`.

The model keeps these behaviours of the code as they are:

- The name map is created once per plugin instance and never cleared. A
  later `load` therefore imports every partial that earlier loads recorded
  (`Plugin.EarlierPartialsImported`). The map also keeps entries whose
  resolution failed.
- `toCamelCase` is not injective. `a-b` and `aB` both become `AB`
  (`Camel.AliasNotInjective`), so two partials can get the same import
  binding.
- A partial that cannot be found raises one generic error
  (index.ts:161). It is modelled as `Failed(PartialNotFound)`, with no
  payload naming the partial.
- `getPartialPath` uses `Promise.any`, so the result is whichever existing
  candidate's probe settles first, not necessarily the first directory. The
  model picks that candidate with the `firstSettled` oracle, and its
  contracts promise only "some existing candidate".
- `hasPartials` tests only `/\b_Cr\('/`. When the compiled text has `_Cr('`
  at a word boundary but no full call matches, the import branch still
  runs. If the map is empty, the output is then `"\n\n"` followed by the
  compiled module.
- When one partial fails to resolve, the partials that did resolve still
  reach the cache. `Promise.all` rejects at the first failure, but the other
  callbacks still run to completion. `Resolver.CacheAfter` models the state
  once they have all finished.

## Model

| member | source | states |
|---|---|---|
| Base.ContainsIffOccurs | index.ts:7-9 | the `includes` scan used by `containsDirectives` is true exactly when the tag occurs at some offset of the content (both directions) |
| Base.JoinWithHasEveryPart | index.ts:164 | every line of `partialImports.join('\n\n')` appears in the joined text at the offset reached by the lines and separators before it |
| Postfix.PostfixStart | index.ts:78 | the leftmost match of `[?#]` from a position: no mark before it, a mark at it unless it is the end |
| Postfix.Split | index.ts:89-92 | `filePath + postfix == id`, `filePath` holds no `?` or `#`, and the postfix is empty or starts with one |
| Postfix.SplitUnique | index.ts:89-92 | any cut into a mark-free path and an empty-or-marked postfix is the split, so the split is exactly "everything before the first `?`/`#`" |
| Postfix.SplitOfPath | index.ts:104 | stripping an already stripped path changes nothing |
| Emit.Escape | index.ts:25-26 | no line feed in the escaped text; every quote has a backslash right before it; removing those backslashes gives the input without line feeds; backslashes grow only by the number of quotes (existing ones are not escaped); the length is input + quotes − line feeds |
| Emit.EscapeShape | index.ts:26 | proved by induction over the input: the two replacements in sequence leave no line feed and a backslash before every quote, and unescaping gives the input without line feeds |
| Emit.EscapeCounts | index.ts:26 | proved by induction over the input: the result has one extra backslash per quote, the same quotes, and its length grows by the quotes and shrinks by the line feeds |
| Emit.EscapeKeepsPlainText | index.ts:26 | text without quotes or line feeds passes through unchanged |
| Emit.EmitString | index.ts:24-35 | the module is the fixed `render()` scaffold around a single-quoted literal that has no line feed, has every quote escaped, and unescapes to the content without line feeds |
| Emit.EmitCaveman | index.ts:11-22 | the compiled body sits verbatim between the fixed header (with `render(d = {})`) and footer |
| Camel.CamelTail | index.ts:43 | `.replace(/-(\w)/g, …)` makes the text one character shorter for each `-` followed by a word character |
| Camel.ToCamelCase | index.ts:37-45 | `""` maps to `""` and only `""` does; otherwise the first character is upper-cased and length = input − number of `-\w` matches after the first character |
| Camel.CamelTailPointwise | index.ts:43 | the replacement, position by position: a match's hyphen disappears, the character after it is upper-cased, and every other character is kept in order |
| Camel.ToCamelCaseSpec | index.ts:37-45 | `toCamelCase` is the upper-cased first character followed by the position-by-position replacement of the rest |
| Camel.AliasNotInjective | index.ts:131 | `a-b` and `aB` are different names with the same alias `ABTemplate` |
| Partials.NextQuote | index.ts:127 | the greedy `[^']+` stops at the first quote: none before it, a quote at it unless it is the end |
| Partials.MacroAt | index.ts:127 | a match of `\b_Cr\('([^']+)',` at a position needs a word boundary followed by `_Cr('`, and captures a non-empty, quote-free name |
| Partials.MacroAtSound | index.ts:127 | what a match captures is a whole call: `_Cr('<name>',` occurs at the match position |
| Partials.MacroAtComplete | index.ts:127 | conversely, a word boundary followed by `_Cr('<name>',` with a non-empty, quote-free name is a match, and it captures exactly that name |
| Partials.ScanSpells | index.ts:126-136 | the global left-to-right scan spells the text back exactly, and every call it finds has a valid name |
| Partials.ScanFits | index.ts:126-136 | each piece of the scan is what the pattern does at that piece's offset: a call with the captured name where a match starts, the character itself where none does |
| Partials.ParseIsScan | index.ts:126-136 | any reading into pieces that spells the text and fits at every offset is the scan |
| Partials.ParseUnique | index.ts:126-136 | two such readings of the same text are equal, so the global replacement reads a text in exactly one way |
| Partials.CallsReplaced | index.ts:126-136 | no call is skipped: where the reading has a piece and `_Cr('<name>',` sits at a word boundary, that piece is the call of `<name>` |
| Partials.RewriteCalls | index.ts:126-136 | the output is the text's unique reading with every call replaced by `<Alias>.render(` and every other character kept; the reported names are the captured names in order, all non-empty and quote-free |
| Partials.NoHeadNoCalls | index.ts:117-124 | with no `_Cr('` at a word boundary the replacement changes nothing and records nothing, so the `hasPartials` shortcut agrees with it |
| Partials.LookupNone | index.ts:132 | in the `Map.get` view of the name map, in which the contracts of `set` are stated, a name is absent exactly when no entry has it |
| Partials.MapSet | index.ts:132 | `Map.set` maps the name to the alias, leaves every other lookup and every earlier entry's place alone, and appends only a new name |
| Partials.NamesOfMapSet | index.ts:132 | `Map.set` keeps the key order for a known name and appends an unknown name at the end |
| Partials.MapSetWellFormed | index.ts:132 | `set` keeps names distinct and every alias equal to `toCamelCase(name) + 'Template'` |
| Partials.Record | index.ts:126-136 | after the replacement, the names not yet in the map are appended in order of first call, each once and under its alias; every called name maps to its alias, other names keep their lookups, and earlier entries keep their places |
| Partials.FirstSeenSpec | index.ts:132 | the appended names are exactly the called names not already in the map, without repeats |
| Partials.RecordWellFormed | index.ts:126-136 | recording keeps names distinct and aliases derived from names |
| Partials.LookupFinds | index.ts:147 | with distinct names, the alias that iteration pairs with an entry's name is the one the map holds for that name |
| Resolver.Existing | index.ts:47-54 | the candidates whose probe succeeds are exactly the existing `join(dir, file)` over the directories |
| Resolver.Search | index.ts:52-54 | `getPartialPath` fails exactly when no directory holds the file; otherwise it yields an existing `join(dir, file)` for some listed directory |
| Resolver.ResolveEntry | index.ts:148-153 | a cached name takes its cached path without a search; any other name resolves exactly when some directory holds `name + extension`, and then to such a file |
| Resolver.ResolveAll | index.ts:146-159 | one resolution per name-map entry, in map order, each with the properties of `ResolveEntry` |
| Resolver.CacheAfter | index.ts:155 | nothing leaves the cache; each resolved name is cached; every changed value is the path resolved for that name; with distinct names, each resolved name maps to its own path |
| Plugin.ResolveId | index.ts:85-99 | `null` exactly when `extname(id)` lacks `.html` or the host resolves nothing; otherwise the host's id with exactly the original postfix appended |
| Plugin.ResolveIdRoundTrip | index.ts:97-104 | when the host returns a mark-free path, `load` splits the resolved id back into that path and the original postfix |
| Plugin.Load | index.ts:101-171 | not handled exactly when the filter rejects; a read failure exactly when the filter accepts and the file cannot be read; a compile failure exactly when the file reads, has the open tag and the compiler fails; failures other than a missing partial leave the state alone; name-map entries keep their places; cache entries are never changed or removed; the state invariant is kept |
| Plugin.LinkKeepsState | index.ts:126-162 | the partial branch either loads or fails with a missing partial; it records each called name under its alias, keeps earlier entries and cached paths, and keeps the invariant |
| Plugin.PlainBranchExactly | index.ts:107-114 | `load` returns `emitString(content)` exactly when the content has no open tag, and then the state is unchanged |
| Plugin.NoPartialsKeepsModule | index.ts:116-124 | a compiled module with no `_Cr('` at a word boundary is returned as it is and the state is unchanged |
| Plugin.PartialBranch | index.ts:116-126 | a compiled module with `_Cr('` at a word boundary goes to the partial branch |
| Plugin.LinkFailsIffUnresolvable | index.ts:144-162 | the load fails exactly when some entry of the whole name map is neither cached nor present in any candidate directory |
| Plugin.LinkOutput | index.ts:144-170 | when every entry of the name map resolves, the branch loads; it outputs one `import <alias> from "<path><postfix>"` per entry in map order, joined by `"\n\n"`, then `"\n\n"` and the rewritten code |
| Plugin.LinkPathsFit | index.ts:140-153 | each import path is the cached path for a cached name (whatever the template's directory), otherwise an existing `join(dir, name + extension)` over the template's directory and then `partialPaths` |
| Plugin.LinkCacheRecordsPaths | index.ts:148-157 | after success the cache maps every entry's name to the path its import line uses |
| Plugin.AssembleImports | index.ts:157-165 | every entry's `import <alias> from "` appears in the assembled module |
| Plugin.EarlierPartialsImported | index.ts:126-165 | because the name map is shared, when every entry resolves, the partial branch imports every partial an earlier load recorded, under its recorded alias |

## Left out

- `Caveman.compile` and `Caveman.options` belong to a foreign library. The
  compiler is the `Host.compile` parameter, and the open tag is
  `Host.openTag`. A compile error is `Failed(CompileFailed)`; the error
  object itself is not modelled.
- `readFile`, `access`, `path.extname`, `path.dirname`, `path.join` and
  Rollup's `this.resolve` are parameters. The model does not give them a
  behaviour of its own. `null` and `undefined` from `this.resolve` are both
  `None`.
- `createFilter` uses picomatch globs. Its result is the `Config.filter`
  predicate, so the default `include` pattern is not modelled.
- `this.error` becomes `Failed(PartialNotFound)`. Its message and `cause`
  are not modelled.
- Rollup's source map is not modelled. It is the constant
  `{ mappings: '' }`.
- The hook's `name: 'caveman'` property is not modelled.
- The timing of `Promise.any` and `Promise.all` is not modelled. Concurrent
  loads racing on the shared name map and cache are not modelled either.
  Loads happen one after another.
- Base.ToUpper: upper-cases ASCII letters only. JavaScript's `toUpperCase`
  maps all of Unicode, and some characters become two characters there.
- JavaScript strings are UTF-16 code units, while Dafny `char` values are
  Unicode scalar values. Surrogate pairs are not modelled.
- The `if (!partialName) return match;` guard at index.ts:129 is not
  modelled as a separate branch. `[^']+` never captures an empty name, and
  `Partials.MacroAt` proves that every captured name is non-empty.
- test/index.js is a snapshot test over a fixture that is not part of this
  model, and it states no assertions. caveman.d.ts holds only type
  declarations.
