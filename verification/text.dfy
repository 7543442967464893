/**
 * The three string operations script.js relies on, with JavaScript's meaning:
 * `String.prototype.trim`, `String.prototype.toLowerCase` (ASCII letters only)
 * and `String.prototype.includes`.
 */
module Text {

  /** JavaScript's WhiteSpace and LineTerminator code points, the ones `trim` removes. */
  predicate IsSpace(c: char) {
    c == '\t' || c == '\n' || c == '\U{000B}' || c == '\U{000C}' || c == '\r' || c == ' '
    || c == '\U{00A0}' || c == '\U{1680}' || ('\U{2000}' <= c <= '\U{200A}')
    || c == '\U{2028}' || c == '\U{2029}' || c == '\U{202F}' || c == '\U{205F}'
    || c == '\U{3000}' || c == '\U{FEFF}'
  }

  /** Drops leading white space: the result is a suffix of `s` and all it dropped is space. */
  function TrimStart(s: string): (r: string)
    ensures |r| <= |s| && r == s[|s| - |r|..]
    ensures r == [] || !IsSpace(r[0])
    ensures forall i :: 0 <= i < |s| - |r| ==> IsSpace(s[i])
  {
    if |s| > 0 && IsSpace(s[0]) then TrimStart(s[1..]) else s
  }

  /** Drops trailing white space: the result is a prefix of `s` and all it dropped is space. */
  function TrimEnd(s: string): (r: string)
    ensures |r| <= |s| && r == s[..|r|]
    ensures r == [] || !IsSpace(r[|r| - 1])
    ensures forall i :: |r| <= i < |s| ==> IsSpace(s[i])
  {
    if |s| > 0 && IsSpace(s[|s| - 1]) then TrimEnd(s[..|s| - 1]) else s
  }

  /** `s` is `r` at offset `k` with only white space around it. */
  predicate PaddedAt(s: string, r: string, k: int) {
    && 0 <= k <= |s| - |r|
    && r == s[k..k + |r|]
    && forall j :: 0 <= j < |s| && (j < k || k + |r| <= j) ==> IsSpace(s[j])
  }

  /** `s.trim()`. */
  function Trim(s: string): (r: string)
    ensures |r| <= |s|
    ensures r == [] || (!IsSpace(r[0]) && !IsSpace(r[|r| - 1]))
  {
    TrimEnd(TrimStart(s))
  }

  /** `trim()` removes white space from the two ends only: the rest of `s` is kept as it is. */
  lemma TrimKeepsCore(s: string)
    ensures exists k :: PaddedAt(s, Trim(s), k)
  {
    var t := TrimStart(s);
    var k := |s| - |t|;
    var r := TrimEnd(t);
    assert t == s[k..] && r == t[..|r|];
    assert r == s[k..k + |r|];
    forall j | k + |r| <= j < |s|
      ensures IsSpace(s[j])
    {
      assert s[j] == t[j - k];
    }
    assert Trim(s) == r;
    assert PaddedAt(s, r, k);
  }

  /** A string with no white space at either end is its own trimmed form. */
  lemma TrimUnpadded(s: string)
    requires s == [] || (!IsSpace(s[0]) && !IsSpace(s[|s| - 1]))
    ensures Trim(s) == s
  {
    assert TrimStart(s) == s;
    assert TrimEnd(s) == s;
  }

  lemma TrimIdempotent(s: string)
    ensures Trim(Trim(s)) == Trim(s)
  {
    var r := Trim(s);
    assert TrimStart(r) == r;
    assert TrimEnd(r) == r;
  }

  lemma {:induction false} TrimStartSnocSpace(s: string, c: char)
    requires IsSpace(c)
    ensures TrimStart(s + [c]) == if TrimStart(s) == [] then [] else TrimStart(s) + [c]
  {
    if |s| > 0 && IsSpace(s[0]) {
      assert (s + [c])[1..] == s[1..] + [c];
      TrimStartSnocSpace(s[1..], c);
    } else if s == [] {
      assert TrimStart([c]) == TrimStart([]);
    }
  }

  /** Surrounding a string with more white space does not change its trimmed form. */
  lemma TrimIgnoresPadding(s: string, c: char)
    requires IsSpace(c)
    ensures Trim([c] + s) == Trim(s)
    ensures Trim(s + [c]) == Trim(s)
  {
    assert ([c] + s)[1..] == s;
    TrimStartSnocSpace(s, c);
    var t := TrimStart(s);
    if t != [] {
      assert (t + [c])[..|t + [c]| - 1] == t;
    }
  }

  function LowerChar(c: char): char {
    if 'A' <= c <= 'Z' then (c as int + 32) as char else c
  }

  /** `s.toLowerCase()` restricted to the ASCII letters. */
  function ToLower(s: string): (r: string)
    ensures |r| == |s|
    ensures forall i :: 0 <= i < |s| ==> r[i] == LowerChar(s[i])
  {
    if s == [] then [] else [LowerChar(s[0])] + ToLower(s[1..])
  }

  predicate StartsWith(s: string, prefix: string) {
    |prefix| <= |s| && s[..|prefix|] == prefix
  }

  /** `s.includes(sub)`: `sub` occurs in `s` at some position. */
  predicate Contains(s: string, sub: string)
    decreases |s|
  {
    StartsWith(s, sub) || (|s| > 0 && Contains(s[1..], sub))
  }

  /** An occurrence at any position is found by `Contains`. */
  lemma {:induction false} ContainsAt(s: string, sub: string, i: nat)
    requires i + |sub| <= |s| && s[i..i + |sub|] == sub
    ensures Contains(s, sub)
  {
    if i > 0 {
      assert s[1..][i - 1..i - 1 + |sub|] == s[i..i + |sub|];
      ContainsAt(s[1..], sub, i - 1);
    }
  }

  /** Whenever `Contains` holds, `sub` really occurs in `s`, at the returned position. */
  lemma {:induction false} ContainsWitness(s: string, sub: string) returns (i: nat)
    requires Contains(s, sub)
    ensures i + |sub| <= |s| && s[i..i + |sub|] == sub
  {
    if StartsWith(s, sub) {
      i := 0;
    } else {
      var j := ContainsWitness(s[1..], sub);
      assert s[1..][j..j + |sub|] == s[j + 1..j + 1 + |sub|];
      i := j + 1;
    }
  }

  /** No string contains one longer than itself. */
  lemma {:induction false} ContainsShorter(s: string, sub: string)
    ensures Contains(s, sub) ==> |sub| <= |s|
  {
    if !StartsWith(s, sub) && |s| > 0 {
      ContainsShorter(s[1..], sub);
    }
  }
}
