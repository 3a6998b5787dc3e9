/** Shared vocabulary of the plugin model: an optional value, the ASCII
    character classes JavaScript regular expressions use for `\w` and `\b`,
    substring search (`String.prototype.includes`) and `Array.prototype.join`. */
module Base {

  /** A value that may be absent: `null`/`undefined` results, and the
      rejections of the foreign calls the plugin makes. */
  datatype Option<+T> = None | Some(value: T)

  /** The class `\w` of a JavaScript regular expression without the `u` flag. */
  predicate IsWordChar(c: char) {
    ('a' <= c <= 'z') || ('A' <= c <= 'Z') || ('0' <= c <= '9') || c == '_'
  }

  /** Upper-casing of one character, restricted to ASCII letters. */
  function ToUpper(c: char): (u: char)
    ensures 'a' <= c <= 'z' ==> 'A' <= u <= 'Z' && u as int == c as int - 32
    ensures !('a' <= c <= 'z') ==> u == c
  {
    if 'a' <= c <= 'z' then (c as int - 32) as char else c
  }

  /** `t` sits in `s` at offset `i`. */
  predicate OccursAt(s: string, t: string, i: int) {
    0 <= i && i + |t| <= |s| && s[i..i + |t|] == t
  }

  /** A prefix of an occurrence occurs at the same place. */
  lemma OccursPrefix(s: string, t: string, u: string, i: int)
    requires OccursAt(s, t + u, i)
    ensures OccursAt(s, t, i)
  {
    assert s[i..i + |t|] == s[i..i + |t + u|][..|t|];
  }

  /** An occurrence survives appending more text. */
  lemma OccursExtend(s: string, u: string, t: string, i: int)
    requires OccursAt(s, t, i)
    ensures OccursAt(s + u, t, i)
  {
    assert (s + u)[i..i + |t|] == s[i..i + |t|];
  }

  /** `s.includes(t)`, written as a left-to-right scan. */
  predicate Contains(s: string, t: string)
    decreases |s|
  {
    if |s| < |t| then false
    else if s[..|t|] == t then true
    else if |s| == 0 then false
    else Contains(s[1..], t)
  }

  /** The scan finds `t` exactly when `t` occurs somewhere in `s`. */
  lemma {:induction false} ContainsIffOccurs(s: string, t: string)
    ensures Contains(s, t) <==> exists i :: OccursAt(s, t, i)
    decreases |s|
  {
    if |s| < |t| {
    } else if s[..|t|] == t {
      assert OccursAt(s, t, 0);
    } else if |s| == 0 {
      assert false;
    } else {
      ContainsIffOccurs(s[1..], t);
      if Contains(s, t) {
        var i :| OccursAt(s[1..], t, i);
        assert s[1..][i..i + |t|] == s[i + 1..i + 1 + |t|];
        assert OccursAt(s, t, i + 1);
      }
      if exists i :: OccursAt(s, t, i) {
        var i :| OccursAt(s, t, i);
        assert i != 0;
        assert s[1..][i - 1..i - 1 + |t|] == s[i..i + |t|];
        assert OccursAt(s[1..], t, i - 1);
      }
    }
  }

  /** `parts.join(sep)`. */
  function JoinWith(parts: seq<string>, sep: string): (r: string)
    ensures |parts| == 1 ==> r == parts[0]
    decreases |parts|
  {
    if |parts| == 0 then ""
    else if |parts| == 1 then parts[0]
    else parts[0] + sep + JoinWith(parts[1..], sep)
  }

  /** Every part is found in the joined text, each at the offset reached by
      the parts and separators before it. */
  lemma {:induction false} JoinWithHasEveryPart(parts: seq<string>, sep: string, k: nat)
    requires k < |parts|
    ensures OccursAt(JoinWith(parts, sep), parts[k], JoinOffset(parts, sep, k))
    decreases k
  {
    var r := JoinWith(parts, sep);
    if k == 0 {
      if |parts| > 1 {
        assert r == parts[0] + (sep + JoinWith(parts[1..], sep));
      }
    } else {
      JoinWithHasEveryPart(parts[1..], sep, k - 1);
      var rest := JoinWith(parts[1..], sep);
      var off := JoinOffset(parts[1..], sep, k - 1);
      var pre := parts[0] + sep;
      assert r == pre + rest;
      assert JoinOffset(parts, sep, k) == |pre| + off;
      assert r[|pre| + off..|pre| + off + |parts[k]|] == rest[off..off + |parts[k]|];
    }
  }

  /** Where part `k` starts in `JoinWith(parts, sep)`. */
  function JoinOffset(parts: seq<string>, sep: string, k: nat): nat
    requires k < |parts|
    decreases k
  {
    if k == 0 then 0 else |parts[0]| + |sep| + JoinOffset(parts[1..], sep, k - 1)
  }
}
