/** The partial-call rewriter of `load`: the compiled module is scanned for
    `/\b_Cr\('([^']+)',/g`, each call is replaced by `<Alias>.render(`, and
    each name is recorded in the plugin's name map. */
module Partials {
  import opened Base
  import Camel

  /** The literal start of a partial call in the compiler's output. */
  const MacroHead := "_Cr('"

  /** The text of a partial call up to and including the comma after the
      quoted name. */
  function MacroCall(name: string): string {
    MacroHead + name + "',"
  }

  /** The text that replaces a call. */
  function Replacement(name: string): string {
    Camel.Alias(name) + ".render("
  }

  /** `\b` before `_`: `_` is a word character, so a boundary is the start
      of the text or a non-word character just before. */
  predicate Boundary(s: string, i: int)
    requires 0 <= i <= |s|
  {
    i == 0 || !IsWordChar(s[i - 1])
  }

  /** `/\b_Cr\('/` matches at `i`: a word boundary, then the five
      characters of `MacroHead`. */
  predicate HeadAt(s: string, i: int) {
    0 <= i && i + 5 <= |s| && Boundary(s, i) &&
    s[i] == '_' && s[i + 1] == 'C' && s[i + 2] == 'r' && s[i + 3] == '(' && s[i + 4] == '\''
  }

  /** `/\b_Cr\('/.test(s)`, the `hasPartials` test. */
  predicate HasMacroHead(s: string) {
    exists i :: 0 <= i <= |s| && HeadAt(s, i)
  }

  /** A partial name as the pattern `[^']+` accepts it. */
  predicate ValidName(name: string) {
    |name| > 0 && forall k :: 0 <= k < |name| ==> name[k] != '\''
  }

  /** The first quote at or after `k`, or `|s|`. */
  function NextQuote(s: string, k: nat): (j: nat)
    requires k <= |s|
    ensures k <= j <= |s|
    ensures forall m :: k <= m < j ==> s[m] != '\''
    ensures j < |s| ==> s[j] == '\''
    decreases |s| - k
  {
    if k == |s| || s[k] == '\'' then k else NextQuote(s, k + 1)
  }

  /** The name of the partial call that `/\b_Cr\('([^']+)',/` matches at `i`,
      if any. The greedy `[^']+` runs to the next quote; backing off cannot
      help, since a shorter run is followed by a character that is not a
      quote. */
  function MacroAt(s: string, i: nat): (r: Option<string>)
    requires i <= |s|
    ensures r.Some? ==> HeadAt(s, i) && ValidName(r.value)
  {
    if HeadAt(s, i) then
      var j := NextQuote(s, i + |MacroHead|);
      if j > i + |MacroHead| && j + 1 < |s| && s[j + 1] == ',' then
        Some(s[i + |MacroHead|..j])
      else None
    else None
  }

  /** What `MacroAt` captures is a whole call: `_Cr('<name>',` sits at `i`. */
  lemma MacroAtSound(s: string, i: nat)
    requires i <= |s| && MacroAt(s, i).Some?
    ensures OccursAt(s, MacroCall(MacroAt(s, i).value), i)
  {
    var name := MacroAt(s, i).value;
    var j := NextQuote(s, i + |MacroHead|);
    assert s[i..i + |MacroHead|] == MacroHead;
    assert s[i..j + 2] == s[i..i + |MacroHead|] + name + s[j..j + 2];
  }

  /** The converse of `MacroAt`'s contract: wherever a valid call
      `_Cr('<name>',` sits at a word boundary, the pattern matches there and
      captures exactly that name. */
  lemma MacroAtComplete(s: string, i: nat, n: string)
    requires i <= |s|
    requires Boundary(s, i) && ValidName(n) && OccursAt(s, MacroCall(n), i)
    ensures MacroAt(s, i) == Some(n)
  {
    CallShape(s, i, n);
    var h := |MacroHead|;
    assert HeadAt(s, i);
    var j := NextQuote(s, i + h);
    assert j == i + h + |n|;
    assert s[i + h..j] == n;
  }

  /** A valid call at `i` fixes where the head ends, where the name is, and
      what follows its closing quote. */
  lemma CallShape(s: string, i: nat, n: string)
    requires ValidName(n) && OccursAt(s, MacroCall(n), i)
    ensures i + |MacroHead| + |n| + 1 < |s|
    ensures s[i..i + |MacroHead|] == MacroHead
    ensures NextQuote(s, i + |MacroHead|) == i + |MacroHead| + |n|
    ensures s[i + |MacroHead| + |n| + 1] == ','
    ensures s[i + |MacroHead|..i + |MacroHead| + |n|] == n
  {
    var h := |MacroHead|;
    var call := MacroCall(n);
    assert |call| == h + |n| + 2;
    assert s[i..i + |call|] == call;
    forall m | 0 <= m < |call| ensures s[i + m] == call[m] {
      assert s[i..i + |call|][m] == s[i + m];
    }
    assert s[i..i + h] == call[..h] == MacroHead;
    forall m | 0 <= m < |n| ensures s[i + h + m] == n[m] {
      assert call[h + m] == n[m];
    }
    assert s[i + h..i + h + |n|] == n;
    assert s[i + h + |n|] == call[h + |n|] == '\'';
    assert s[i + h + |n| + 1] == call[h + |n| + 1] == ',';
  }

  /** One step of the scan: a character copied as it is, or a whole call. */
  datatype Piece = Text(c: char) | Call(name: string)

  /** The text a list of pieces was read from. */
  function Original(ps: seq<Piece>): string
    decreases |ps|
  {
    if ps == [] then []
    else (match ps[0] case Text(c) => [c] case Call(n) => MacroCall(n)) + Original(ps[1..])
  }

  /** The text with every call replaced. */
  function Rewritten(ps: seq<Piece>): string
    decreases |ps|
  {
    if ps == [] then []
    else (match ps[0] case Text(c) => [c] case Call(n) => Replacement(n)) + Rewritten(ps[1..])
  }

  /** The called names, in order of appearance. */
  function Calls(ps: seq<Piece>): seq<string>
    decreases |ps|
  {
    if ps == [] then []
    else (match ps[0] case Text(_) => [] case Call(n) => [n]) + Calls(ps[1..])
  }

  /** The text piece `p` was read from. */
  function PieceText(p: Piece): (t: string)
    ensures |t| > 0
  {
    match p
    case Text(c) => [c]
    case Call(n) => MacroCall(n)
  }

  /** The offset just past piece `p` when it is read at `i`. */
  function After(i: nat, p: Piece): (j: nat)
    ensures j > i
  {
    i + |PieceText(p)|
  }

  /** Where each piece starts, for pieces read from offset `i` on. */
  function Offsets(ps: seq<Piece>, i: nat): (os: seq<nat>)
    ensures |os| == |ps|
    decreases |ps|
  {
    if ps == [] then [] else [i] + Offsets(ps[1..], After(i, ps[0]))
  }

  /** Piece `p` is what the pattern does at offset `o` of `s`: a call with
      the captured name exactly where a match starts, the character at `o`
      copied where none does. */
  predicate PieceFits(s: string, o: int, p: Piece) {
    0 <= o < |s| &&
    match p
    case Call(n) => MacroAt(s, o) == Some(n)
    case Text(c) => MacroAt(s, o) == None && c == s[o]
  }

  /** Every piece fits at its offset, reading from `i` on. */
  predicate AllFit(s: string, i: nat, ps: seq<Piece>) {
    forall k :: 0 <= k < |ps| ==> PieceFits(s, Offsets(ps, i)[k], ps[k])
  }

  /** The same property, piece by piece from the front. */
  predicate FitsFrom(s: string, i: nat, ps: seq<Piece>)
    decreases |ps|
  {
    ps == [] || (PieceFits(s, i, ps[0]) && FitsFrom(s, After(i, ps[0]), ps[1..]))
  }

  /** `ps` is the global replacement's reading of `s`: it spells `s`, and
      every piece is a match exactly where the pattern matches at that
      piece's offset. */
  predicate IsParse(s: string, ps: seq<Piece>) {
    Original(ps) == s && AllFit(s, 0, ps)
  }

  /** A piece that fits at `i`, followed by pieces that fit from the end of
      its text, fit from `i`; and conversely. */
  lemma AllFitCons(s: string, i: nat, ps: seq<Piece>)
    requires ps != []
    ensures AllFit(s, i, ps) <==>
      PieceFits(s, i, ps[0]) && AllFit(s, After(i, ps[0]), ps[1..])
  {
    var os := Offsets(ps, i);
    var j := After(i, ps[0]);
    assert os == [i] + Offsets(ps[1..], j);
    assert forall k :: 0 < k < |ps| ==> os[k] == Offsets(ps[1..], j)[k - 1] && ps[k] == ps[1..][k - 1];
    if PieceFits(s, i, ps[0]) && AllFit(s, j, ps[1..]) {
      forall k | 0 <= k < |ps| ensures PieceFits(s, os[k], ps[k]) {
        if k > 0 {
          assert PieceFits(s, Offsets(ps[1..], j)[k - 1], ps[1..][k - 1]);
        }
      }
    }
    if AllFit(s, i, ps) {
      assert PieceFits(s, os[0], ps[0]);
      forall k | 0 <= k < |ps[1..]| ensures PieceFits(s, Offsets(ps[1..], j)[k], ps[1..][k]) {
        assert PieceFits(s, os[k + 1], ps[k + 1]);
      }
    }
  }

  /** The text of one piece followed by the text of the rest. */
  lemma OriginalCons(ps: seq<Piece>)
    requires ps != []
    ensures Original(ps) == PieceText(ps[0]) + Original(ps[1..])
  {
  }

  /** What the pattern does at `i`: a whole call where a match starts,
      otherwise the one character there, copied. */
  function PieceAt(s: string, i: nat): (p: Piece)
    requires i < |s|
    ensures After(i, p) <= |s|
  {
    match MacroAt(s, i)
    case Some(n) => MacroAtSound(s, i); Call(n)
    case None => Text(s[i])
  }

  /** A piece fits at `o` exactly when it is the one the pattern reads
      there. */
  lemma PieceFitsPieceAt(s: string, o: nat, p: Piece)
    requires o < |s|
    ensures PieceFits(s, o, p) <==> p == PieceAt(s, o)
  {
  }

  /** The global scan from position `i`: a match is consumed whole and the
      search resumes after it; otherwise one character is copied and the
      search resumes at the next position. */
  function Scan(s: string, i: nat): seq<Piece>
    requires i <= |s|
    decreases |s| - i
  {
    if i == |s| then []
    else
      var p := PieceAt(s, i);
      [p] + Scan(s, After(i, p))
  }

  /** One step of the scan. */
  lemma ScanStep(s: string, i: nat)
    requires i < |s|
    ensures Scan(s, i) == [PieceAt(s, i)] + Scan(s, After(i, PieceAt(s, i)))
  {
  }

  /** The piece read at `i` spells the text there, and a call in it has a
      name the pattern accepts. */
  lemma PieceAtSpells(s: string, i: nat)
    requires i < |s|
    ensures s[i..After(i, PieceAt(s, i))] == PieceText(PieceAt(s, i))
    ensures PieceAt(s, i).Call? ==> ValidName(PieceAt(s, i).name)
  {
    if MacroAt(s, i).Some? {
      MacroAtSound(s, i);
    }
  }

  /** Nothing is lost by the scan: its pieces spell the text back exactly,
      and every call found has a name the pattern accepts. */
  lemma ScanSpells(s: string, i: nat)
    requires i <= |s|
    ensures Original(Scan(s, i)) == s[i..]
    ensures forall k :: 0 <= k < |Scan(s, i)| && Scan(s, i)[k].Call? ==> ValidName(Scan(s, i)[k].name)
  {
    ScanSpellsFrom(s, i);
  }

  /** `ps` spells `s` from `i` on, and every call in it has a valid name. */
  predicate SpellsFrom(s: string, i: nat, ps: seq<Piece>)
    requires i <= |s|
  {
    Original(ps) == s[i..] && forall k :: 0 <= k < |ps| && ps[k].Call? ==> ValidName(ps[k].name)
  }

  lemma {:induction false} ScanSpellsFrom(s: string, i: nat)
    requires i <= |s|
    ensures SpellsFrom(s, i, Scan(s, i))
    decreases |s| - i
  {
    if i == |s| {
      assert Scan(s, i) == [];
    } else {
      ScanSpellsFrom(s, After(i, PieceAt(s, i)));
      ScanSpellsStep(s, i);
    }
  }

  /** If the scan after the first piece spells the rest, the whole scan
      spells the text from `i`. */
  lemma ScanSpellsStep(s: string, i: nat)
    requires i < |s|
    ensures SpellsFrom(s, After(i, PieceAt(s, i)), Scan(s, After(i, PieceAt(s, i)))) ==> SpellsFrom(s, i, Scan(s, i))
  {
    if SpellsFrom(s, After(i, PieceAt(s, i)), Scan(s, After(i, PieceAt(s, i)))) {
      var p := PieceAt(s, i);
      PieceAtSpells(s, i);
      SpellsCons(s, i, p, Scan(s, After(i, p)));
      ScanStep(s, i);
    }
  }

  /** A piece that spells the text at `i`, in front of pieces that spell
      the text after it. */
  lemma SpellsCons(s: string, i: nat, p: Piece, rest: seq<Piece>)
    requires After(i, p) <= |s|
    requires s[i..After(i, p)] == PieceText(p)
    requires p.Call? ==> ValidName(p.name)
    requires SpellsFrom(s, After(i, p), rest)
    ensures SpellsFrom(s, i, [p] + rest)
  {
    var ps := [p] + rest;
    var j := After(i, p);
    OriginalCons(ps);
    assert ps[1..] == rest;
    assert s[i..] == s[i..j] + s[j..];
    forall k | 0 <= k < |ps| && ps[k].Call? ensures ValidName(ps[k].name) {
      if k > 0 {
        assert ps[k] == rest[k - 1];
      }
    }
  }

  /** The front-to-back and the position-wise readings of "every piece
      fits" agree. */
  lemma {:induction false} FitsFromIffAllFit(s: string, i: nat, ps: seq<Piece>)
    ensures FitsFrom(s, i, ps) <==> AllFit(s, i, ps)
    decreases |ps|
  {
    if ps != [] {
      AllFitCons(s, i, ps);
      FitsFromFront(s, i, ps);
      FitsFromIffAllFit(s, After(i, ps[0]), ps[1..]);
    }
  }

  /** `FitsFrom` on a non-empty list, one level unfolded. */
  lemma FitsFromFront(s: string, i: nat, ps: seq<Piece>)
    requires ps != []
    ensures FitsFrom(s, i, ps) <==> PieceFits(s, i, ps[0]) && FitsFrom(s, After(i, ps[0]), ps[1..])
  {
  }

  /** Every piece of the scan sits where the pattern puts it: a call exactly
      at the offsets where a match starts, a copied character everywhere
      else. */
  lemma {:induction false} ScanFits(s: string, i: nat)
    requires i <= |s|
    ensures AllFit(s, i, Scan(s, i))
  {
    ScanFitsFrom(s, i);
    FitsFromIffAllFit(s, i, Scan(s, i));
  }

  lemma {:induction false} ScanFitsFrom(s: string, i: nat)
    requires i <= |s|
    ensures FitsFrom(s, i, Scan(s, i))
    decreases |s| - i
  {
    if i < |s| {
      ScanFitsFrom(s, After(i, PieceAt(s, i)));
      ScanFitsStep(s, i);
    }
  }

  /** If the scan after the first piece fits, the whole scan fits. */
  lemma ScanFitsStep(s: string, i: nat)
    requires i < |s|
    requires FitsFrom(s, After(i, PieceAt(s, i)), Scan(s, After(i, PieceAt(s, i))))
    ensures FitsFrom(s, i, Scan(s, i))
  {
    var p := PieceAt(s, i);
    PieceFitsPieceAt(s, i, p);
    FitsFromCons(s, i, p, Scan(s, After(i, p)));
    ScanStep(s, i);
  }

  /** A piece that fits at `i` in front of pieces that fit after it. */
  lemma FitsFromCons(s: string, i: nat, p: Piece, rest: seq<Piece>)
    requires PieceFits(s, i, p) && FitsFrom(s, After(i, p), rest)
    ensures FitsFrom(s, i, [p] + rest)
  {
    assert ([p] + rest)[1..] == rest;
  }

  /** The scan is the only reading with those properties: any list of
      pieces that spells `s` from `i` and fits at every offset is the scan. */
  lemma ParseIsScan(s: string, i: nat, ps: seq<Piece>)
    requires i <= |s|
    requires Original(ps) == s[i..]
    requires AllFit(s, i, ps)
    ensures ps == Scan(s, i)
  {
    FitsFromIffAllFit(s, i, ps);
    FitsFromIsScan(s, i, ps);
  }

  lemma {:induction false} FitsFromIsScan(s: string, i: nat, ps: seq<Piece>)
    requires i <= |s|
    requires Original(ps) == s[i..]
    requires FitsFrom(s, i, ps)
    ensures ps == Scan(s, i)
    decreases |s| - i
  {
    if ps == [] {
      assert |s[i..]| == 0;
    } else {
      OriginalRest(s, i, ps);
      FitsFromFront(s, i, ps);
      PieceFitsPieceAt(s, i, ps[0]);
      FitsFromIsScan(s, After(i, ps[0]), ps[1..]);
      ScanRebuild(s, i, ps);
    }
  }

  /** A list whose first piece is the one read at `i` and whose tail is the
      scan after it is the scan from `i`. */
  lemma ScanRebuild(s: string, i: nat, ps: seq<Piece>)
    requires i < |s| && ps != []
    ensures ps[0] == PieceAt(s, i) && ps[1..] == Scan(s, After(i, PieceAt(s, i))) ==> ps == Scan(s, i)
  {
    ScanStep(s, i);
    assert ps == [ps[0]] + ps[1..];
  }

  /** The tail of a reading of `s[i..]` reads the text after its first piece. */
  lemma OriginalRest(s: string, i: nat, ps: seq<Piece>)
    requires i <= |s| && ps != []
    requires Original(ps) == s[i..]
    ensures After(i, ps[0]) <= |s|
    ensures Original(ps[1..]) == s[After(i, ps[0])..]
  {
    var t := PieceText(ps[0]);
    OriginalCons(ps);
    assert s[i..] == t + Original(ps[1..]);
    assert Original(ps[1..]) == s[i..][|t|..];
  }

  /** Two readings of the same text that both fit everywhere are equal, so
      `IsParse` pins the replacement down completely. */
  lemma ParseUnique(s: string, ps: seq<Piece>, qs: seq<Piece>)
    requires IsParse(s, ps) && IsParse(s, qs)
    ensures ps == qs
  {
    ParseIsScan(s, 0, ps);
    ParseIsScan(s, 0, qs);
  }

  /** The result of the replacement: the new text and the names met, in
      order (one entry per call, repeats included). */
  datatype Rewrite = Rewrite(code: string, names: seq<string>)

  /** `compiled.replace(/\b_Cr\('([^']+)',/g, ...)`: the output spells the
      pattern's reading of the text with every call replaced by its alias's
      `render(` call and every other character kept; the reported names are
      the calls in order. */
  function RewriteCalls(code: string): (r: Rewrite)
    ensures exists ps :: IsParse(code, ps) && r.code == Rewritten(ps) && r.names == Calls(ps)
    ensures forall k :: 0 <= k < |r.names| ==> ValidName(r.names[k])
  {
    var ps := Scan(code, 0);
    ScanSpells(code, 0);
    CallsValid(ps);
    ScanFits(code, 0);
    assert code[0..] == code;
    assert IsParse(code, ps);
    Rewrite(Rewritten(ps), Calls(ps))
  }

  /** Every valid `_Cr('<name>',` at a word boundary where the reading has a
      piece boundary is replaced: the piece there is that call. */
  lemma CallsReplaced(s: string, ps: seq<Piece>, k: nat, n: string)
    requires IsParse(s, ps) && k < |ps|
    requires Boundary(s, Offsets(ps, 0)[k]) && ValidName(n) && OccursAt(s, MacroCall(n), Offsets(ps, 0)[k])
    ensures ps[k] == Call(n)
  {
    assert PieceFits(s, Offsets(ps, 0)[k], ps[k]);
    MacroAtComplete(s, Offsets(ps, 0)[k], n);
  }

  lemma {:induction false} CallsValid(ps: seq<Piece>)
    requires forall k :: 0 <= k < |ps| && ps[k].Call? ==> ValidName(ps[k].name)
    ensures forall k :: 0 <= k < |Calls(ps)| ==> ValidName(Calls(ps)[k])
    decreases |ps|
  {
    if ps != [] {
      CallsValid(ps[1..]);
    }
  }

  /** With no `_Cr('` at a word boundary there is nothing to replace: the
      `hasPartials` shortcut agrees with running the replacement. */
  lemma NoHeadNoCalls(code: string)
    requires !HasMacroHead(code)
    ensures RewriteCalls(code) == Rewrite(code, [])
  {
    NoHeadScan(code, 0);
  }

  lemma {:induction false} NoHeadScan(s: string, i: nat)
    requires i <= |s|
    requires forall j :: i <= j <= |s| ==> !HeadAt(s, j)
    ensures Rewritten(Scan(s, i)) == s[i..]
    ensures Calls(Scan(s, i)) == []
    decreases |s| - i
  {
    if i == |s| {
      assert Scan(s, i) == [];
    } else {
      NoHeadScan(s, After(i, PieceAt(s, i)));
      NoHeadStep(s, i);
    }
  }

  /** Without a match at `i`, the scan copies the character there. */
  lemma NoHeadStep(s: string, i: nat)
    requires i < |s| && !HeadAt(s, i)
    requires Rewritten(Scan(s, After(i, PieceAt(s, i)))) == s[After(i, PieceAt(s, i))..]
    requires Calls(Scan(s, After(i, PieceAt(s, i)))) == []
    ensures Rewritten(Scan(s, i)) == s[i..] && Calls(Scan(s, i)) == []
  {
    ScanStep(s, i);
    NoHeadPiece(s, i);
    TextCons(s[i], Scan(s, After(i, PieceAt(s, i))));
  }

  /** Without a match at `i`, the piece there is the character there. */
  lemma NoHeadPiece(s: string, i: nat)
    requires i < |s| && !HeadAt(s, i)
    ensures PieceAt(s, i) == Text(s[i])
    ensures s[i..] == [s[i]] + s[After(i, PieceAt(s, i))..]
  {
  }

  /** A leading text piece is copied and calls nothing. */
  lemma TextCons(c: char, rest: seq<Piece>)
    ensures Rewritten([Text(c)] + rest) == [c] + Rewritten(rest)
    ensures Calls([Text(c)] + rest) == Calls(rest)
  {
    assert ([Text(c)] + rest)[1..] == rest;
  }

  /** One entry of the plugin's `partialNameMap`. */
  datatype Entry = Entry(name: string, alias: string)

  /** A JavaScript `Map` from names to aliases, kept as its entries in
      insertion order (the order `Array.from` lists them in). */
  type NameMap = seq<Entry>

  /** No name appears twice. */
  predicate DistinctNames(m: NameMap) {
    forall i, j :: 0 <= i < j < |m| ==> m[i].name != m[j].name
  }

  /** Every entry carries the alias derived from its name. */
  predicate AliasesDerived(m: NameMap) {
    forall i :: 0 <= i < |m| ==> m[i].alias == Camel.Alias(m[i].name)
  }

  /** `m.get(name)`. The plugin itself only calls `set` on this map and
      iterates it; this lookup is the view in which the contracts of
      `MapSet` and `Record` describe what the map holds. */
  function Lookup(m: NameMap, name: string): Option<string>
    decreases |m|
  {
    if m == [] then None
    else if m[0].name == name then Some(m[0].alias)
    else Lookup(m[1..], name)
  }

  /** A name is absent from the map exactly when no entry carries it. */
  lemma {:induction false} LookupNone(m: NameMap, name: string)
    ensures Lookup(m, name) == None <==> forall i :: 0 <= i < |m| ==> m[i].name != name
    decreases |m|
  {
    if m != [] {
      LookupNone(m[1..], name);
      assert forall i :: 0 < i < |m| ==> m[i] == m[1..][i - 1];
    }
  }

  /** The names of the entries, in map order. */
  function NamesOf(m: NameMap): (ns: seq<string>)
    ensures |ns| == |m| && forall i :: 0 <= i < |m| ==> ns[i] == m[i].name
  {
    seq(|m|, i requires 0 <= i < |m| => m[i].name)
  }

  /** The names of `names` that are not in `seen`, each once, in order of
      first occurrence: the keys a run of `Map.set` calls appends. */
  function FirstSeen(names: seq<string>, seen: seq<string>): seq<string>
    decreases |names|
  {
    if names == [] then []
    else if names[0] in seen then FirstSeen(names[1..], seen)
    else [names[0]] + FirstSeen(names[1..], seen + [names[0]])
  }

  /** The names `FirstSeen` lists are exactly the names met that were not
      seen before, and none is listed twice. */
  lemma {:induction false} FirstSeenSpec(names: seq<string>, seen: seq<string>)
    ensures forall n :: n in FirstSeen(names, seen) <==> n in names && n !in seen
    ensures forall a, b :: 0 <= a < b < |FirstSeen(names, seen)| ==>
      FirstSeen(names, seen)[a] != FirstSeen(names, seen)[b]
    decreases |names|
  {
    if names != [] {
      var n0 := names[0];
      assert forall n :: n in names ==> n == n0 || n in names[1..];
      if n0 in seen {
        FirstSeenSpec(names[1..], seen);
      } else {
        var r := FirstSeen(names[1..], seen + [n0]);
        FirstSeenSpec(names[1..], seen + [n0]);
        assert n0 !in r;
        assert forall b :: 0 < b <= |r| ==> ([n0] + r)[b] == r[b - 1];
      }
    }
  }

  /** `m.set(name, alias)`: a known name keeps its place and takes the new
      alias, a new name is appended at the end; every other entry stays
      where it was, unchanged. */
  function MapSet(m: NameMap, name: string, alias: string): (r: NameMap)
    ensures Lookup(m, name).Some? ==> |r| == |m|
    ensures Lookup(m, name).None? ==> |r| == |m| + 1 && r[|m|] == Entry(name, alias)
    ensures Lookup(r, name) == Some(alias)
    ensures forall n :: n != name ==> Lookup(r, n) == Lookup(m, n)
    ensures forall i :: 0 <= i < |m| ==> r[i].name == m[i].name
    ensures forall i :: 0 <= i < |m| ==> r[i] == m[i] || r[i] == Entry(name, alias)
    ensures forall i :: 0 <= i < |m| && m[i].name != name ==> r[i] == m[i]
    decreases |m|
  {
    if m == [] then [Entry(name, alias)]
    else if m[0].name == name then [Entry(name, alias)] + m[1..]
    else [m[0]] + MapSet(m[1..], name, alias)
  }

  /** How one `set` changes the list of names: not at all for a known name,
      by one at the end for a new one. */
  lemma NamesOfMapSet(m: NameMap, name: string, alias: string)
    ensures name in NamesOf(m) <==> Lookup(m, name).Some?
    ensures name in NamesOf(m) ==> NamesOf(MapSet(m, name, alias)) == NamesOf(m)
    ensures name !in NamesOf(m) ==> NamesOf(MapSet(m, name, alias)) == NamesOf(m) + [name]
  {
    NameKnown(m, name);
    if Lookup(m, name).Some? {
      NamesOfSetKnown(m, name, alias);
    } else {
      NamesOfSetNew(m, name, alias);
    }
  }

  /** A name is a key of the map exactly when looking it up finds it. */
  lemma NameKnown(m: NameMap, name: string)
    ensures name in NamesOf(m) <==> Lookup(m, name).Some?
  {
    LookupNone(m, name);
    var ns := NamesOf(m);
    if name in ns {
      var i :| 0 <= i < |ns| && ns[i] == name;
      assert m[i].name == name;
    }
  }

  lemma NamesOfSetKnown(m: NameMap, name: string, alias: string)
    requires Lookup(m, name).Some?
    ensures NamesOf(MapSet(m, name, alias)) == NamesOf(m)
  {
    var r := MapSet(m, name, alias);
    assert |r| == |m|;
    forall k | 0 <= k < |m| ensures NamesOf(r)[k] == NamesOf(m)[k] {
      assert r[k].name == m[k].name;
    }
  }

  lemma {:induction false} NamesOfSetNew(m: NameMap, name: string, alias: string)
    requires Lookup(m, name).None?
    ensures NamesOf(MapSet(m, name, alias)) == NamesOf(m) + [name]
    decreases |m|
  {
    if m != [] {
      NamesOfSetNew(m[1..], name, alias);
      NamesOfCons(m[0], MapSet(m[1..], name, alias));
      NamesOfCons(m[0], m[1..]);
      assert m == [m[0]] + m[1..];
    }
  }

  /** The names of an entry followed by a map. */
  lemma NamesOfCons(e: Entry, m: NameMap)
    ensures NamesOf([e] + m) == [e.name] + NamesOf(m)
  {
  }

  /** Setting keeps names distinct and aliases derived from names. */
  lemma MapSetWellFormed(m: NameMap, name: string)
    requires DistinctNames(m) && AliasesDerived(m)
    ensures DistinctNames(MapSet(m, name, Camel.Alias(name)))
    ensures AliasesDerived(MapSet(m, name, Camel.Alias(name)))
  {
    var r := MapSet(m, name, Camel.Alias(name));
    LookupNone(m, name);
    forall i, j | 0 <= i < j < |r| ensures r[i].name != r[j].name {
      if j == |m| {
        assert r[i].name == m[i].name;
      }
    }
    forall i | 0 <= i < |r| ensures r[i].alias == Camel.Alias(r[i].name) {
      if i < |m| && m[i].name == name {
        LookupFinds(r, i);
      }
    }
  }

  /** The effect of the replacement callback on the name map:
      `partialNameMap.set(name, alias)` for each call, in order. Every name
      met ends up mapped to its alias and every other name keeps its lookup.
      The entries already there keep their places, and each either stays as
      it was or is a called name with its alias; after them come the names
      that were not in the map, each once, in order of first call. */
  function Record(m: NameMap, names: seq<string>): (r: NameMap)
    ensures Appended(r, |m|, FirstSeen(names, NamesOf(m)))
    ensures forall n :: n in names ==> Lookup(r, n) == Some(Camel.Alias(n))
    ensures forall n :: n !in names ==> Lookup(r, n) == Lookup(m, n)
    ensures forall i :: 0 <= i < |m| ==> r[i].name == m[i].name
    ensures forall i :: 0 <= i < |m| ==>
      r[i] == m[i] || (m[i].name in names && r[i] == Entry(m[i].name, Camel.Alias(m[i].name)))
    decreases |names|
  {
    if names == [] then m
    else
      var n0 := names[0];
      var r := Record(MapSet(m, n0, Camel.Alias(n0)), names[1..]);
      RecordConsLookups(m, names, r);
      RecordConsPlaces(m, names, r);
      RecordConsTail(m, names, r);
      r
  }

  /** The step of `Record` for lookups: the first `set` and then the
      remaining names map every name met to its alias and leave the others. */
  lemma RecordConsLookups(m: NameMap, names: seq<string>, r: NameMap)
    requires names != []
    requires forall n :: n in names[1..] ==> Lookup(r, n) == Some(Camel.Alias(n))
    requires forall n :: n !in names[1..] ==> Lookup(r, n) == Lookup(MapSet(m, names[0], Camel.Alias(names[0])), n)
    ensures forall n :: n in names ==> Lookup(r, n) == Some(Camel.Alias(n))
    ensures forall n :: n !in names ==> Lookup(r, n) == Lookup(m, n)
  {
    assert forall n :: n in names ==> n == names[0] || n in names[1..];
    assert forall n :: n in names[1..] ==> n in names;
  }

  /** The step of `Record` for the entries already in the map: each keeps
      its name, and stays as it was or becomes a called name with its
      alias. */
  lemma RecordConsPlaces(m: NameMap, names: seq<string>, r: NameMap)
    requires names != []
    requires var m1 := MapSet(m, names[0], Camel.Alias(names[0]));
      && |m1| <= |r|
      && (forall i :: 0 <= i < |m1| ==> r[i].name == m1[i].name)
      && (forall i :: 0 <= i < |m1| ==>
            r[i] == m1[i] || (m1[i].name in names[1..] && r[i] == Entry(m1[i].name, Camel.Alias(m1[i].name))))
    ensures forall i :: 0 <= i < |m| ==> r[i].name == m[i].name
    ensures forall i :: 0 <= i < |m| ==>
      r[i] == m[i] || (m[i].name in names && r[i] == Entry(m[i].name, Camel.Alias(m[i].name)))
  {
    var m1 := MapSet(m, names[0], Camel.Alias(names[0]));
    assert forall n :: n in names[1..] ==> n in names;
    forall i | 0 <= i < |m|
      ensures r[i] == m[i] || (m[i].name in names && r[i] == Entry(m[i].name, Camel.Alias(m[i].name)))
    {
      assert m1[i].name == m[i].name;
      if m1[i] != m[i] {
        assert m1[i] == Entry(names[0], Camel.Alias(names[0]));
      }
    }
  }

  /** From position `base` on, `r` holds exactly one entry per name of
      `fs`, in order, each with the alias derived from its name. */
  predicate Appended(r: NameMap, base: nat, fs: seq<string>) {
    |r| == base + |fs| && forall k :: 0 <= k < |fs| ==> r[base + k] == Entry(fs[k], Camel.Alias(fs[k]))
  }

  /** One more derived entry just before an appended run. */
  lemma AppendedCons(r: NameMap, base: nat, n: string, fs: seq<string>)
    requires base < |r| && r[base] == Entry(n, Camel.Alias(n))
    requires Appended(r, base + 1, fs)
    ensures Appended(r, base, [n] + fs)
  {
    forall k | 0 <= k < |[n] + fs| ensures r[base + k] == Entry(([n] + fs)[k], Camel.Alias(([n] + fs)[k])) {
      if k > 0 {
        assert ([n] + fs)[k] == fs[k - 1];
        assert r[base + 1 + (k - 1)] == Entry(fs[k - 1], Camel.Alias(fs[k - 1]));
      }
    }
  }

  /** The step of `Record` for the appended entries: after the first `set`,
      the new names are the first name (when it is new) followed by the new
      names among the rest. */
  lemma RecordConsTail(m: NameMap, names: seq<string>, r: NameMap)
    requires names != []
    requires var m1 := MapSet(m, names[0], Camel.Alias(names[0]));
      && Appended(r, |m1|, FirstSeen(names[1..], NamesOf(m1)))
      && (|m| < |m1| ==> r[|m|] == m1[|m|] || r[|m|] == Entry(m1[|m|].name, Camel.Alias(m1[|m|].name)))
    ensures Appended(r, |m|, FirstSeen(names, NamesOf(m)))
  {
    var n0 := names[0];
    var m1 := MapSet(m, n0, Camel.Alias(n0));
    NamesOfMapSet(m, n0, Camel.Alias(n0));
    var fs1 := FirstSeen(names[1..], NamesOf(m1));
    if n0 in NamesOf(m) {
      assert FirstSeen(names, NamesOf(m)) == fs1 && |m1| == |m|;
    } else {
      assert FirstSeen(names, NamesOf(m)) == [n0] + fs1 && |m1| == |m| + 1;
      AppendedCons(r, |m|, n0, fs1);
    }
  }

  /** Recording keeps names distinct and aliases derived from names. */
  lemma {:induction false} RecordWellFormed(m: NameMap, names: seq<string>)
    ensures DistinctNames(m) && AliasesDerived(m) ==>
      DistinctNames(Record(m, names)) && AliasesDerived(Record(m, names))
    decreases |names|
  {
    if names != [] && DistinctNames(m) && AliasesDerived(m) {
      MapSetWellFormed(m, names[0]);
      RecordWellFormed(MapSet(m, names[0], Camel.Alias(names[0])), names[1..]);
    }
  }

  /** With distinct names, the alias that iteration pairs with an entry's
      name is the one the map holds for that name. */
  lemma {:induction false} LookupFinds(m: NameMap, k: nat)
    requires k < |m|
    requires DistinctNames(m)
    ensures Lookup(m, m[k].name) == Some(m[k].alias)
    decreases k
  {
    if k > 0 {
      assert m[0].name != m[k].name;
      assert m[1..][k - 1] == m[k];
      LookupFinds(m[1..], k - 1);
    }
  }
}
