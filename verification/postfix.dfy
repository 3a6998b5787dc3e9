/** Splitting a module id into the file path and the query-or-fragment
    postfix (the regular expression `/[?#].*$/s` of the plugin), and putting
    the postfix back after the host has resolved the path. */
module Postfix {

  /** The characters that open a postfix. */
  predicate IsPostfixMark(c: char) {
    c == '?' || c == '#'
  }

  /** No postfix mark anywhere in `s`. */
  predicate Unmarked(s: string) {
    forall i :: 0 <= i < |s| ==> !IsPostfixMark(s[i])
  }

  /** A module id taken apart: the file path and the postfix. */
  datatype IdParts = IdParts(path: string, postfix: string)

  /** The index of the first `?` or `#` at or after `i`, or `|id|` when there
      is none: where the leftmost match of `/[?#].*$/s` starts. */
  function PostfixStart(id: string, i: nat): (k: nat)
    requires i <= |id|
    ensures i <= k <= |id|
    ensures forall j :: i <= j < k ==> !IsPostfixMark(id[j])
    ensures k < |id| ==> IsPostfixMark(id[k])
    decreases |id| - i
  {
    if i == |id| then i
    else if IsPostfixMark(id[i]) then i
    else PostfixStart(id, i + 1)
  }

  /** `id.match(postfixRE)?.[0] ?? ''` and `id.replace(postfixRE, '')`: the
      postfix runs from the first `?` or `#` to the end (the `s` flag lets it
      span newlines), and the path is everything before it. */
  function Split(id: string): (p: IdParts)
    ensures p.path + p.postfix == id
    ensures Unmarked(p.path)
    ensures p.postfix == [] || IsPostfixMark(p.postfix[0])
  {
    var k := PostfixStart(id, 0);
    IdParts(id[..k], id[k..])
  }

  /** The split is the only way to cut an id into a mark-free path and a
      postfix that is empty or opens with a mark. */
  lemma SplitUnique(path: string, postfix: string)
    requires Unmarked(path)
    requires postfix == [] || IsPostfixMark(postfix[0])
    ensures Split(path + postfix) == IdParts(path, postfix)
  {
    var id := path + postfix;
    var k := PostfixStart(id, 0);
    assert forall j :: 0 <= j < |path| ==> id[j] == path[j];
    assert |postfix| > 0 ==> id[|path|] == postfix[0];
    assert k == |path|;
    assert id[..k] == path && id[k..] == postfix;
  }

  /** Splitting an already stripped path leaves it whole, with an empty
      postfix. The `resolveId`-then-`load` round trip is
      `Plugin.ResolveIdRoundTrip`. */
  lemma SplitOfPath(id: string)
    ensures Split(Split(id).path) == IdParts(Split(id).path, "")
  {
    var p := Split(id).path;
    SplitUnique(p, "");
    assert p + "" == p;
  }
}
