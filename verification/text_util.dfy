/** Character classes and string operations shared by the course-schedule
    model.  Text is a sequence of characters.  Every regular-expression
    pattern is a character predicate or an anchored matcher, and a
    substitution is the single scanning function `SubAll`. */
module TextUtil {

  datatype Option<T> = None | Some(value: T)

  // ---------------------------------------------------------------------
  // Character classes
  // ---------------------------------------------------------------------

  /** The model's reading of `\d` and of `str.isdigit`: ASCII decimal digits. */
  predicate IsDigit(c: char) { '0' <= c <= '9' }

  predicate IsAsciiLetter(c: char) { 'a' <= c <= 'z' || 'A' <= c <= 'Z' }

  /** CJK Unified Ideographs, U+4E00 .. U+9FFF. */
  predicate IsCjk(c: char) { '\U{4E00}' <= c <= '\U{9FFF}' }

  /** Characters of a Chinese personal name: ideographs and the two middle dots. */
  predicate IsNameChar(c: char) { IsCjk(c) || c == '·' || c == '•' }

  /** Python's whitespace (`str.isspace`, and `\s` on `str` patterns). */
  predicate IsSpace(c: char)
  {
    var n := c as int;
    (9 <= n <= 13) || (28 <= n <= 32) || n == 0x85 || n == 0xA0 || n == 0x1680
    || (0x2000 <= n <= 0x200A) || n == 0x2028 || n == 0x2029 || n == 0x202F
    || n == 0x205F || n == 0x3000
  }

  /** The model's reading of `\w`: ASCII letters and digits, `_`, CJK ideographs. */
  predicate IsWordChar(c: char) { IsAsciiLetter(c) || IsDigit(c) || c == '_' || IsCjk(c) }

  predicate AllDigits(s: string) { forall i :: 0 <= i < |s| ==> IsDigit(s[i]) }

  predicate HasDigit(s: string) { exists i :: 0 <= i < |s| && IsDigit(s[i]) }

  /** `lo <= |s| <= hi` and every character is a name character:
      the pattern `^[一-鿿·•]{lo,hi}$`. */
  predicate IsNameShape(s: string, lo: nat, hi: nat)
  {
    lo <= |s| <= hi && forall i :: 0 <= i < |s| ==> IsNameChar(s[i])
  }

  // ---------------------------------------------------------------------
  // Subsequences and substrings
  // ---------------------------------------------------------------------

  /** `a` is obtained from `b` by deleting elements (order kept). */
  predicate IsSubseq<T(==)>(a: seq<T>, b: seq<T>)
    decreases |b|
  {
    |a| <= |b| &&
    (a == [] || (a[0] == b[0] && IsSubseq(a[1..], b[1..])) || IsSubseq(a, b[1..]))
  }

  lemma {:induction false} SubseqRefl<T>(a: seq<T>)
    ensures IsSubseq(a, a)
    decreases |a|
  {
    if a != [] {
      SubseqRefl(a[1..]);
    }
  }

  lemma {:induction false} SubseqTrans<T>(a: seq<T>, b: seq<T>, c: seq<T>)
    requires IsSubseq(a, b) && IsSubseq(b, c)
    ensures IsSubseq(a, c)
    decreases |c|
  {
    if a == [] {
    } else if b[0] == c[0] && IsSubseq(b[1..], c[1..]) {
      if a[0] == b[0] && IsSubseq(a[1..], b[1..]) {
        SubseqTrans(a[1..], b[1..], c[1..]);
      } else {
        SubseqTrans(a, b[1..], c[1..]);
      }
    } else {
      SubseqTrans(a, b, c[1..]);
    }
  }

  /** Every contiguous slice is a subsequence. */
  lemma {:induction false} SliceIsSubseq<T>(s: seq<T>, i: nat, j: nat)
    requires i <= j <= |s|
    ensures IsSubseq(s[i..j], s)
    decreases |s|
  {
    if i == j {
    } else if i == 0 {
      SliceShift(s, 1, j);
      SliceIsSubseq(s[1..], 0, j - 1);
      assert s[i..j][0] == s[0];
    } else {
      SliceShift(s, i, j);
      SliceIsSubseq(s[1..], i - 1, j - 1);
    }
  }

  /** A block after position `n` is a block of `s[n..]`. */
  lemma SliceOfDrop<T>(s: seq<T>, n: nat, i: nat, j: nat)
    requires n <= i <= j <= |s|
    ensures s[n..][i - n..j - n] == s[i..j]
  {
  }

  /** A block that misses the first element is a block of the tail. */
  lemma SliceShift<T>(s: seq<T>, i: nat, j: nat)
    requires 0 < i <= j <= |s|
    ensures s[i..j] == s[1..][i - 1..j - 1] && s[i - 1..j][1..] == s[i..j]
  {
    forall k | 0 <= k < j - i ensures s[1..][i - 1..j - 1][k] == s[i..j][k] {
      assert s[1..][i - 1..j - 1][k] == s[1..][i - 1 + k] == s[i + k];
    }
    forall k | 0 <= k < j - i ensures s[i - 1..j][1..][k] == s[i..j][k] {
      assert s[i - 1..j][1..][k] == s[i - 1..j][k + 1] == s[i + k];
    }
  }

  lemma SuffixIsSubseq<T>(s: seq<T>, n: nat)
    requires n <= |s|
    ensures IsSubseq(s[n..], s)
  {
    assert s[n..] == s[n..|s|];
    SliceIsSubseq(s, n, |s|);
  }

  /** Python's `sub in s`: `sub` occurs as a contiguous block of `s`. */
  predicate Contains(s: string, sub: string)
    decreases |s|
  {
    sub <= s || (|s| > 0 && Contains(s[1..], sub))
  }

  /** `any(tok in s for tok in toks)`. */
  predicate ContainsAny(s: string, toks: seq<string>)
  {
    exists k :: 0 <= k < |toks| && Contains(s, toks[k])
  }

  /** `Contains` agrees with the positional reading of `in`. */
  lemma {:induction false} ContainsAt(s: string, sub: string, i: nat)
    requires i + |sub| <= |s| && s[i..i + |sub|] == sub
    ensures Contains(s, sub)
    decreases i
  {
    if i == 0 {
      assert sub <= s;
    } else {
      assert s[1..][i - 1..i - 1 + |sub|] == sub;
      ContainsAt(s[1..], sub, i - 1);
    }
  }

  /** A block of `s` occurs in `s`, whatever the block is. */
  lemma SliceContained(s: string, i: nat, j: nat)
    requires i <= j <= |s|
    ensures Contains(s, s[i..j])
  {
    ContainsAt(s, s[i..j], i);
  }

  /** The block `s[i..j]`, which occurs in `s`. */
  function Block(s: string, i: nat, j: nat): (b: string)
    requires i <= j <= |s|
    ensures b == s[i..j] && Contains(s, b)
  {
    SliceContained(s, i, j);
    s[i..j]
  }

  /** Whatever occurs in a part of `t` occurs in `t`. */
  lemma {:induction false} ContainsMonotone(s: string, t: string, sub: string, i: nat, j: nat)
    requires i <= j <= |t| && s == t[i..j] && Contains(s, sub)
    ensures Contains(t, sub)
    decreases |s|
  {
    if sub <= s {
      assert t[i..i + |sub|] == sub;
      ContainsAt(t, sub, i);
    } else {
      ContainsMonotone(s[1..], t, sub, i + 1, j);
    }
  }

  /** `sub in s` gives the position of an occurrence. */
  lemma {:induction false} ContainsWitness(s: string, sub: string) returns (i: nat)
    requires Contains(s, sub)
    ensures i + |sub| <= |s| && s[i..i + |sub|] == sub
    decreases |s|
  {
    if sub <= s {
      i := 0;
    } else {
      var j := ContainsWitness(s[1..], sub);
      assert s[1..][j..j + |sub|] == s[j + 1..j + 1 + |sub|];
      i := j + 1;
    }
  }

  /** A one-character string occurs exactly when the character does. */
  lemma ContainsChar(s: string, c: char)
    ensures Contains(s, [c]) <==> c in s
  {
    if Contains(s, [c]) {
      var i := ContainsWitness(s, [c]);
      assert s[i] == s[i..i + 1][0];
    }
    if c in s {
      var i :| 0 <= i < |s| && s[i] == c;
      assert s[i..i + 1] == [c];
      ContainsAt(s, [c], i);
    }
  }

  /** A string with a character that does not occur in `t` does not occur
      in `t`. */
  lemma AbsentChar(t: string, k: string, j: nat)
    requires j < |k| && k[j] !in t
    ensures !Contains(t, k)
  {
    if Contains(t, k) {
      var i := ContainsWitness(t, k);
    }
  }

  /** What occurs in an occurrence occurs in the string. */
  lemma ContainsTrans(s: string, t: string, u: string)
    requires Contains(s, t) && Contains(t, u)
    ensures Contains(s, u)
  {
    var i := ContainsWitness(s, t);
    ContainsMonotone(t, s, u, i, i + |t|);
  }

  // ---------------------------------------------------------------------
  // Trimming
  // ---------------------------------------------------------------------

  /** `str.lstrip()`: drop the leading whitespace. */
  function LStrip(s: string): (r: string)
    ensures |r| <= |s| && r == s[|s| - |r|..]
    ensures forall i :: 0 <= i < |s| - |r| ==> IsSpace(s[i])
    ensures |r| > 0 ==> !IsSpace(r[0])
    decreases |s|
  {
    if |s| > 0 && IsSpace(s[0]) then LStrip(s[1..]) else s
  }

  /** `str.rstrip()`: drop the trailing whitespace. */
  function RStrip(s: string): (r: string)
    ensures |r| <= |s| && r == s[..|r|]
    ensures forall i :: |r| <= i < |s| ==> IsSpace(s[i])
    ensures |r| > 0 ==> !IsSpace(r[|r| - 1])
    decreases |s|
  {
    if |s| > 0 && IsSpace(s[|s| - 1]) then RStrip(s[..|s| - 1]) else s
  }

  /** `str.strip()`. */
  function Strip(s: string): (r: string)
    ensures |r| <= |s|
    ensures |r| > 0 ==> !IsSpace(r[0]) && !IsSpace(r[|r| - 1])
  {
    RStrip(LStrip(s))
  }

  /** The stripped string is the block of `s` between its leading and
      trailing whitespace; `a` is where it starts. */
  lemma StripBlock(s: string) returns (a: nat)
    ensures a + |Strip(s)| <= |s| && Strip(s) == s[a..a + |Strip(s)|]
  {
    var l := LStrip(s);
    var r := RStrip(l);
    a := |s| - |l|;
    assert Strip(s) == r;
    SliceOfSuffix(s, a, |r|);
  }

  lemma SliceOfSuffix<T>(s: seq<T>, a: nat, n: nat)
    requires a + n <= |s|
    ensures s[a..][..n] == s[a..a + n]
  {
  }

  lemma StripSubseq(s: string)
    ensures IsSubseq(Strip(s), s)
  {
    var a := StripBlock(s);
    SliceIsSubseq(s, a, a + |Strip(s)|);
  }

  /** A string without whitespace at either end is its own strip. */
  lemma StripFixed(s: string)
    requires |s| == 0 || (!IsSpace(s[0]) && !IsSpace(s[|s| - 1]))
    ensures Strip(s) == s
  {
  }

  /** The stripped text is a block of the text. */
  lemma StripContained(s: string)
    ensures Contains(s, Strip(s))
  {
    var a := StripBlock(s);
    SliceContained(s, a, a + |Strip(s)|);
  }

  lemma StripIdempotent(s: string)
    ensures Strip(Strip(s)) == Strip(s)
  {
    StripFixed(Strip(s));
  }

  /** Every character of the stripped string is a character of `s`. */
  lemma StripChars(s: string)
    ensures forall k :: 0 <= k < |Strip(s)| ==> Strip(s)[k] in s
  {
    var a := StripBlock(s);
  }

  /** A character that is not whitespace survives stripping. */
  lemma StripKeeps(s: string, i: nat)
    requires i < |s| && !IsSpace(s[i])
    ensures s[i] in Strip(s)
  {
    var l := LStrip(s);
    var off := |s| - |l|;
    assert off <= i;
    assert l[i - off] == s[i];
    var r := RStrip(l);
    assert i - off < |r|;
    assert r[i - off] == s[i];
  }

  /** Stripping keeps every digit, and leaves something only when the text
      has a character that is not whitespace. */
  lemma StripDigits(s: string)
    ensures HasDigit(s) ==> HasDigit(Strip(s))
    ensures Strip(s) != "" ==> exists i :: 0 <= i < |s| && !IsSpace(s[i])
  {
    if HasDigit(s) {
      var i :| 0 <= i < |s| && IsDigit(s[i]);
      StripKeeps(s, i);
    }
    if Strip(s) != "" {
      StripChars(s);
      assert Strip(s)[0] in s;
    }
  }

  // ---------------------------------------------------------------------
  // Scanning and splitting
  // ---------------------------------------------------------------------

  /** Index of the first element satisfying `p`, or `|s|` when there is none. */
  function FirstIndex<T>(s: seq<T>, p: T -> bool): (i: nat)
    ensures i <= |s|
    ensures forall j :: 0 <= j < i ==> !p(s[j])
    ensures i < |s| ==> p(s[i])
    decreases |s|
  {
    if s == [] then 0 else if p(s[0]) then 0 else 1 + FirstIndex(s[1..], p)
  }

  /** The first match in `a + b` is in `b` when `a` has none. */
  lemma FirstIndexConcat<T>(a: seq<T>, b: seq<T>, p: T -> bool)
    requires forall j :: 0 <= j < |a| ==> !p(a[j])
    ensures FirstIndex(a + b, p) == |a| + FirstIndex(b, p)
    decreases |a|
  {
    if a != [] {
      assert (a + b)[0] == a[0];
      assert (a + b)[1..] == a[1..] + b;
      FirstIndexConcat(a[1..], b, p);
    } else {
      assert a + b == b;
    }
  }

  /** Length of the longest prefix whose characters all satisfy `p`. */
  function RunLength(s: string, p: char -> bool): (n: nat)
    ensures n <= |s|
    ensures forall j :: 0 <= j < n ==> p(s[j])
    ensures n < |s| ==> !p(s[n])
    decreases |s|
  {
    if s != [] && p(s[0]) then 1 + RunLength(s[1..], p) else 0
  }

  /** `ks` lists, in increasing order, exactly the positions from `d` on
      where `m` holds. */
  predicate ListsMarked(m: seq<bool>, d: nat, ks: seq<nat>)
  {
    && |ks| <= |m| - d
    && (forall i :: 0 <= i < |ks| ==> d <= ks[i] < |m| && m[ks[i]])
    && (forall k :: d <= k < |m| && m[k] ==> k in ks)
    && (forall i, j :: 0 <= i < j < |ks| ==> ks[i] < ks[j])
    && (ks == [] <==> forall k :: d <= k < |m| ==> !m[k])
  }

  /** The positions from `d` on where `m` holds, in increasing order. */
  function Marked(m: seq<bool>, d: nat): (ks: seq<nat>)
    requires d <= |m|
    ensures |ks| <= |m| - d
    ensures forall i :: 0 <= i < |ks| ==> d <= ks[i] < |m| && m[ks[i]]
    ensures forall k :: d <= k < |m| && m[k] ==> k in ks
    ensures forall i, j :: 0 <= i < j < |ks| ==> ks[i] < ks[j]
    ensures ks == [] <==> forall k :: d <= k < |m| ==> !m[k]
    decreases |m| - d
  {
    if d == |m| then []
    else
      var rest := Marked(m, d + 1);
      if m[d] then
        MarkedCons(m, d, rest);
        [d] + rest
      else
        MarkedSkip(m, d, rest);
        rest
  }

  /** A marked position in front of the list for the positions after it. */
  lemma MarkedCons(m: seq<bool>, d: nat, rest: seq<nat>)
    requires d < |m| && m[d] && ListsMarked(m, d + 1, rest)
    ensures ListsMarked(m, d, [d] + rest)
  {
    var ks := [d] + rest;
    assert forall i :: 1 <= i < |ks| ==> ks[i] == rest[i - 1];
    assert forall k :: k in rest ==> k in ks;
  }

  /** An unmarked position leaves the list unchanged. */
  lemma MarkedSkip(m: seq<bool>, d: nat, rest: seq<nat>)
    requires d < |m| && !m[d] && ListsMarked(m, d + 1, rest)
    ensures ListsMarked(m, d, rest)
  {
  }

  /** A loop from `d` on that skips the positions where `m` fails and emits
      `g(k)` at the others: one value per marked position, in order. */
  function Pick<T>(m: seq<bool>, d: nat, g: nat -> T): (out: seq<T>)
    requires d <= |m|
    ensures |out| == |Marked(m, d)|
    ensures forall i :: 0 <= i < |out| ==> out[i] == g(Marked(m, d)[i])
    decreases |m| - d
  {
    if d == |m| then []
    else
      var rest := Pick(m, d + 1, g);
      if m[d] then
        assert Marked(m, d) == [d] + Marked(m, d + 1);
        MapCons(d, Marked(m, d + 1), rest, g);
        [g(d)] + rest
      else
        assert Marked(m, d) == Marked(m, d + 1);
        rest
  }

  /** Prepending `k` to the positions and `g(k)` to their images keeps the
      one list the image of the other. */
  lemma MapCons<T>(k: nat, ks: seq<nat>, out: seq<T>, g: nat -> T)
    requires |out| == |ks| && forall i :: 0 <= i < |out| ==> out[i] == g(ks[i])
    ensures var o, p := [g(k)] + out, [k] + ks;
      |o| == |p| && forall i :: 0 <= i < |o| ==> o[i] == g(p[i])
  {
    var o, p := [g(k)] + out, [k] + ks;
    assert forall i :: 1 <= i < |o| ==> o[i] == out[i - 1] && p[i] == ks[i - 1];
  }

  /** The concatenation of a list of lists. */
  function Flatten<T>(xss: seq<seq<T>>): (r: seq<T>)
    decreases |xss|
  {
    if xss == [] then [] else Flatten(xss[..|xss| - 1]) + xss[|xss| - 1]
  }

  lemma FlattenAppend<T>(xss: seq<seq<T>>, xs: seq<T>)
    ensures Flatten(xss + [xs]) == Flatten(xss) + xs
  {
    assert (xss + [xs])[..|xss|] == xss;
  }

  /** `re.split` on a single-character class (no `+`): every separator cuts,
      so adjacent separators leave empty pieces. */
  function SplitOn(s: string, isSep: char -> bool): (parts: seq<string>)
    ensures |parts| >= 1
    ensures forall k, i :: 0 <= k < |parts| && 0 <= i < |parts[k]| ==> !isSep(parts[k][i])
    ensures forall k :: 0 <= k < |parts| ==> |parts[k]| <= |s|
    decreases |s|
  {
    var i := FirstIndex(s, isSep);
    if i == |s| then [s] else [s[..i]] + SplitOn(s[i + 1..], isSep)
  }

  /** Input without separators is one piece. */
  lemma SplitOnNone(s: string, isSep: char -> bool)
    requires forall j :: 0 <= j < |s| ==> !isSep(s[j])
    ensures SplitOn(s, isSep) == [s]
  {
  }

  /** A separator after a separator-free prefix ends the first piece. */
  lemma SplitOnConcat(a: string, sep: char, b: string, isSep: char -> bool)
    requires forall j :: 0 <= j < |a| ==> !isSep(a[j])
    requires isSep(sep)
    ensures SplitOn(a + [sep] + b, isSep) == [a] + SplitOn(b, isSep)
  {
    var s := a + [sep] + b;
    assert s == a + ([sep] + b);
    FirstIndexConcat(a, [sep] + b, isSep);
    assert s[..|a|] == a && s[|a| + 1..] == b;
  }

  /** Every character of every piece is a character of `s`. */
  lemma {:induction false} SplitOnChars(s: string, isSep: char -> bool)
    ensures forall k, i :: 0 <= k < |SplitOn(s, isSep)| && 0 <= i < |SplitOn(s, isSep)[k]|
                           ==> SplitOn(s, isSep)[k][i] in s
    decreases |s|
  {
    var i := FirstIndex(s, isSep);
    if i < |s| {
      SplitOnChars(s[i + 1..], isSep);
      var parts := SplitOn(s, isSep);
      assert parts == [s[..i]] + SplitOn(s[i + 1..], isSep);
      forall k, j | 0 <= k < |parts| && 0 <= j < |parts[k]|
        ensures parts[k][j] in s
      {
        if k == 0 {
          assert parts[k][j] == s[j];
        } else {
          assert parts[k][j] in s[i + 1..];
        }
      }
    }
  }

  /** Every piece is a block of `s`. */
  lemma {:induction false} SplitOnPieces(s: string, isSep: char -> bool, k: nat)
    requires k < |SplitOn(s, isSep)|
    ensures Contains(s, SplitOn(s, isSep)[k])
    decreases |s|
  {
    var i := FirstIndex(s, isSep);
    if i == |s| {
      assert SplitOn(s, isSep) == [s];
      SliceContained(s, 0, |s|);
      assert s[0..|s|] == s;
    } else {
      var rest := SplitOn(s[i + 1..], isSep);
      assert SplitOn(s, isSep) == [s[..i]] + rest;
      if k == 0 {
        SliceContained(s, 0, i);
        assert s[0..i] == s[..i];
      } else {
        assert SplitOn(s, isSep)[k] == rest[k - 1];
        SplitOnPieces(s[i + 1..], isSep, k - 1);
        TailContained(s, i + 1, rest[k - 1]);
      }
    }
  }

  /** Whatever occurs in a suffix of `s` occurs in `s`. */
  lemma TailContained(s: string, i: nat, sub: string)
    requires i <= |s| && Contains(s[i..], sub)
    ensures Contains(s, sub)
  {
    ContainsMonotone(s[i..], s, sub, i, |s|);
  }

  /** `re.sub(pattern, repl, s)` for a pattern that never matches the empty
      string: `m(t)` is the length of the match anchored at the start of `t`
      (0 when there is none).  Scanning is leftmost and non-overlapping. */
  function SubAll(s: string, m: string -> nat, repl: string): (r: string)
    ensures |repl| <= 1 ==> |r| <= |s|
    decreases |s|
  {
    if s == [] then []
    else
      var n := m(s);
      if 0 < n <= |s| then repl + SubAll(s[n..], m, repl)
      else [s[0]] + SubAll(s[1..], m, repl)
  }

  /** A prefix at none of whose positions the pattern matches is copied
      unchanged, and the scan goes on with the rest. */
  lemma {:induction false} SubAllPrefix(p: string, rest: string, m: string -> nat, repl: string)
    requires forall i :: 0 <= i < |p| ==> m((p + rest)[i..]) == 0
    ensures SubAll(p + rest, m, repl) == p + SubAll(rest, m, repl)
    decreases |p|
  {
    if p == [] {
      assert p + rest == rest;
    } else {
      var s := p + rest;
      assert s[0..] == s;
      assert s[1..] == p[1..] + rest;
      forall i | 0 <= i < |p| - 1
        ensures m((p[1..] + rest)[i..]) == 0
      {
        assert (p[1..] + rest)[i..] == s[i + 1..];
      }
      SubAllPrefix(p[1..], rest, m, repl);
      assert p + SubAll(rest, m, repl) == [p[0]] + (p[1..] + SubAll(rest, m, repl));
    }
  }

  /** A text at none of whose positions the pattern matches is unchanged. */
  lemma SubAllIdle(s: string, m: string -> nat, repl: string)
    requires forall i :: 0 <= i < |s| ==> m(s[i..]) == 0
    ensures SubAll(s, m, repl) == s
  {
    assert s + [] == s;
    SubAllPrefix(s, [], m, repl);
  }

  /** Deleting matches keeps the rest in order. */
  lemma {:induction false} SubAllDeleteSubseq(s: string, m: string -> nat)
    ensures IsSubseq(SubAll(s, m, ""), s)
    decreases |s|
  {
    if s != [] {
      var n := m(s);
      if 0 < n <= |s| {
        SubAllDeleteSubseq(s[n..], m);
        DeleteMatchSubseq(s, m);
      } else {
        SubAllDeleteSubseq(s[1..], m);
        DeleteKeepSubseq(s, m);
      }
    }
  }

  lemma DeleteMatchSubseq(s: string, m: string -> nat)
    requires 0 < m(s) <= |s| && IsSubseq(SubAll(s[m(s)..], m, ""), s[m(s)..])
    ensures IsSubseq(SubAll(s, m, ""), s)
  {
    var n := m(s);
    SuffixIsSubseq(s, n);
    SubseqTrans(SubAll(s[n..], m, ""), s[n..], s);
    assert SubAll(s, m, "") == "" + SubAll(s[n..], m, "");
    assert "" + SubAll(s[n..], m, "") == SubAll(s[n..], m, "");
  }

  lemma DeleteKeepSubseq(s: string, m: string -> nat)
    requires s != [] && !(0 < m(s) <= |s|) && IsSubseq(SubAll(s[1..], m, ""), s[1..])
    ensures IsSubseq(SubAll(s, m, ""), s)
  {
    var r := SubAll(s[1..], m, "");
    assert SubAll(s, m, "") == [s[0]] + r;
    assert ([s[0]] + r)[1..] == r;
  }

  /** The anchored matcher of a literal pattern (`str.replace`, `re.sub` of a
      plain string). */
  function LiteralMatcher(lit: string): string -> nat
  {
    t => if |lit| > 0 && lit <= t then |lit| else 0
  }

  /** The characters of `s` that satisfy `p`, in order: a `re.sub` that
      deletes every character of a negated class. */
  function Keep(s: string, p: char -> bool): (r: string)
    ensures forall i :: 0 <= i < |r| ==> p(r[i])
    ensures forall i :: 0 <= i < |r| ==> r[i] in s
    ensures IsSubseq(r, s)
    ensures (forall i :: 0 <= i < |s| ==> p(s[i])) ==> r == s
    decreases |s|
  {
    if s == [] then []
    else if p(s[0]) then
      var r := Keep(s[1..], p);
      assert ([s[0]] + r)[1..] == r;
      [s[0]] + r
    else
      var r := Keep(s[1..], p);
      SuffixIsSubseq(s, 1);
      SubseqTrans(r, s[1..], s);
      r
  }

  /** `s.replace(c, '')`. */
  function RemoveChar(s: string, c: char): (r: string)
    ensures forall i :: 0 <= i < |r| ==> r[i] != c
    ensures forall i :: 0 <= i < |r| ==> r[i] in s
    ensures IsSubseq(r, s)
    ensures c !in s ==> r == s
    decreases |s|
  {
    if s == [] then []
    else if s[0] == c then
      var r := RemoveChar(s[1..], c);
      SuffixIsSubseq(s, 1);
      SubseqTrans(r, s[1..], s);
      r
    else
      var r := RemoveChar(s[1..], c);
      assert ([s[0]] + r)[1..] == r;
      [s[0]] + r
  }

  // ---------------------------------------------------------------------
  // Decimal numbers
  // ---------------------------------------------------------------------

  function DigitValue(c: char): nat
    requires IsDigit(c)
  {
    (c as int) - ('0' as int)
  }

  function DigitChar(d: nat): (c: char)
    requires d < 10
    ensures IsDigit(c) && DigitValue(c) == d
  {
    ('0' as int + d) as char
  }

  function Pow10(n: nat): (p: nat)
    ensures p >= 1
  {
    if n == 0 then 1 else 10 * Pow10(n - 1)
  }

  /** `int(s)` for a non-empty string of digits. */
  function DigitsValue(s: string): nat
    requires AllDigits(s)
    decreases |s|
  {
    if s == [] then 0 else 10 * DigitsValue(s[..|s| - 1]) + DigitValue(s[|s| - 1])
  }

  lemma AllDigitsConcat(a: string, b: string)
    requires AllDigits(a) && AllDigits(b)
    ensures AllDigits(a + b)
  {
    forall i | 0 <= i < |a + b| ensures IsDigit((a + b)[i]) {
      if i < |a| { assert (a + b)[i] == a[i]; } else { assert (a + b)[i] == b[i - |a|]; }
    }
  }

  /** Reading `a + b` is reading `a`, shifting, and adding `b`. */
  lemma {:induction false} DigitsValueConcat(a: string, b: string)
    requires AllDigits(a) && AllDigits(b)
    ensures AllDigits(a + b)
    ensures DigitsValue(a + b) == DigitsValue(a) * Pow10(|b|) + DigitsValue(b)
    decreases |b|
  {
    AllDigitsConcat(a, b);
    if b == [] {
      assert a + b == a;
    } else {
      var b', ab := b[..|b| - 1], a + b;
      var d := DigitValue(b[|b| - 1]);
      assert ab[..|ab| - 1] == a + b';
      assert ab[|ab| - 1] == b[|b| - 1];
      LastDigitValue(ab);
      LastDigitValue(b);
      DigitsValueConcat(a, b');
      ShiftStep(DigitsValue(ab), DigitsValue(a + b'), DigitsValue(a), Pow10(|b'|), Pow10(|b|),
                DigitsValue(b'), DigitsValue(b), d);
    }
  }

  /** Reading a digit string is reading all but its last digit, shifting,
      and adding the last digit. */
  lemma LastDigitValue(s: string)
    requires AllDigits(s) && s != []
    ensures AllDigits(s[..|s| - 1])
    ensures DigitsValue(s) == 10 * DigitsValue(s[..|s| - 1]) + DigitValue(s[|s| - 1])
  {
  }

  lemma ShiftStep(w: int, u: int, x: int, p: int, q: int, v: int, vb: int, d: int)
    requires w == 10 * u + d && u == x * p + v && vb == 10 * v + d && q == 10 * p
    ensures w == x * q + vb
  {
  }

  /** A prefix of a digit string reads as no more than the whole string. */
  lemma PrefixValueBounded(s: string, j: nat)
    requires AllDigits(s) && j <= |s|
    ensures AllDigits(s[..j]) && DigitsValue(s[..j]) <= DigitsValue(s)
  {
    var a, c := s[..j], s[j..];
    assert AllDigits(a) && AllDigits(c);
    assert s == a + c;
    DigitsValueConcat(a, c);
    MulMonotone(DigitsValue(a), Pow10(|c|));
  }

  /** A suffix of a digit string reads as no more than the whole string. */
  lemma SuffixValueBounded(s: string, i: nat)
    requires AllDigits(s) && i <= |s|
    ensures AllDigits(s[i..]) && DigitsValue(s[i..]) <= DigitsValue(s)
  {
    var a, c := s[..i], s[i..];
    assert AllDigits(a) && AllDigits(c);
    assert s == a + c;
    ConcatValueBound(a, c);
  }

  /** Digits in front never lower the value. */
  lemma ConcatValueBound(a: string, c: string)
    requires AllDigits(a) && AllDigits(c)
    ensures AllDigits(a + c) && DigitsValue(c) <= DigitsValue(a + c)
  {
    DigitsValueConcat(a, c);
    MulMonotone(DigitsValue(a), Pow10(|c|));
  }

  /** A block of a digit string reads as no more than the whole string. */
  lemma SliceValueBounded(s: string, i: nat, j: nat)
    requires AllDigits(s) && i <= j <= |s|
    ensures AllDigits(s[i..j])
    ensures DigitsValue(s[i..j]) <= DigitsValue(s)
  {
    PrefixValueBounded(s, j);
    SuffixValueBounded(s[..j], i);
    assert s[..j][i..] == s[i..j];
  }

  lemma MulMonotone(x: nat, p: nat)
    requires p >= 1
    ensures x * p >= x
  {
  }

  /** `re.findall(r'\d+', s)`: the maximal digit runs, left to right. */
  function DigitRuns(s: string): (runs: seq<string>)
    ensures forall k :: 0 <= k < |runs| ==> |runs[k]| >= 1 && AllDigits(runs[k])
    ensures runs == [] <==> !HasDigit(s)
    decreases |s|
  {
    if s == [] then []
    else if IsDigit(s[0]) then
      var n := RunLength(s, IsDigit);
      [s[..n]] + DigitRuns(s[n..])
    else
      var rest := DigitRuns(s[1..]);
      assert HasDigit(s[1..]) <==> HasDigit(s) by {
        if HasDigit(s) {
          var i :| 0 <= i < |s| && IsDigit(s[i]);
          assert s[1..][i - 1] == s[i];
        }
        if HasDigit(s[1..]) {
          var i :| 0 <= i < |s[1..]| && IsDigit(s[1..][i]);
          assert s[i + 1] == s[1..][i];
        }
      }
      rest
  }

  /** A leading digit starts the first run, which reaches the first
      non-digit; the remaining runs are those of the rest. */
  lemma DigitRunsHead(s: string)
    requires s != [] && IsDigit(s[0])
    ensures var n := RunLength(s, IsDigit);
      DigitRuns(s) != [] && DigitRuns(s)[0] == s[..n] && DigitRuns(s)[1..] == DigitRuns(s[n..])
  {
  }

  /** A leading non-digit contributes nothing. */
  lemma DigitRunsSkip(s: string)
    requires s != [] && !IsDigit(s[0])
    ensures DigitRuns(s) == DigitRuns(s[1..])
  {
  }

  /** A non-empty digit string is one run. */
  lemma DigitRunsOfDigits(d: string)
    requires |d| >= 1 && AllDigits(d)
    ensures DigitRuns(d) == [d]
  {
    assert RunLength(d, IsDigit) == |d|;
    assert d[|d|..] == [];
    assert d[..|d|] == d;
  }

  /** `str(n)` for a natural number. */
  function NatToString(n: nat): (r: string)
    ensures |r| >= 1 && AllDigits(r)
    ensures |r| > 1 ==> r[0] != '0'
    decreases n
  {
    if n < 10 then [DigitChar(n)] else NatToString(n / 10) + [DigitChar(n % 10)]
  }

  /** A digit string is canonical when it has no leading zero. */
  predicate Canonical(s: string)
  {
    |s| >= 1 && AllDigits(s) && (|s| > 1 ==> s[0] != '0')
  }

  /** Rendering then reading gives the number back. */
  lemma {:induction false} NatToStringRoundTrip(n: nat)
    ensures DigitsValue(NatToString(n)) == n
    decreases n
  {
    var r := NatToString(n);
    if n >= 10 {
      NatToStringRoundTrip(n / 10);
      assert r[..|r| - 1] == NatToString(n / 10);
    }
  }

  lemma LeadingDigitPositive(s: string)
    requires Canonical(s) && |s| > 1
    ensures DigitsValue(s) >= 1
  {
    DigitsValueConcat(s[..1], s[1..]);
    assert s[..1] + s[1..] == s;
    assert s[..1][..0] == [];
  }

  /** Reading then rendering gives a canonical digit string back. */
  lemma {:induction false} CanonicalRoundTrip(s: string)
    requires Canonical(s)
    ensures NatToString(DigitsValue(s)) == s
    decreases |s|
  {
    if |s| > 1 {
      var p := s[..|s| - 1];
      var d := DigitValue(s[|s| - 1]);
      assert Canonical(p);
      if |p| > 1 { LeadingDigitPositive(p); } else { assert DigitsValue(p[..0]) == 0; }
      assert DigitsValue(p) >= 1;
      CanonicalRoundTrip(p);
      var v := DigitsValue(s);
      assert v == 10 * DigitsValue(p) + d;
      assert v / 10 == DigitsValue(p) && v % 10 == d;
      assert s == p + [s[|s| - 1]];
    } else {
      assert s[..0] == [];
    }
  }
}
