/** The few Python `str` operations the resolver is built from: `upper`,
    `in`, `strip`, `split`, `join` and `replace`, on Dafny strings. */
module PyText {

  /** Whitespace as Python's `str.isspace` (and so `strip()` and the regex
      class `\s`) sees it. */
  predicate IsSpace(c: char) {
    ('\t' <= c <= '\r') || ('\U{1c}' <= c <= ' ') || c == '\U{85}' || c == '\U{a0}'
    || c == '\U{1680}' || ('\U{2000}' <= c <= '\U{200a}') || c == '\U{2028}'
    || c == '\U{2029}' || c == '\U{202f}' || c == '\U{205f}' || c == '\U{3000}'
  }

  /** The regex class `\w`, restricted to ASCII. */
  predicate IsWordChar(c: char) {
    ('a' <= c <= 'z') || ('A' <= c <= 'Z') || ('0' <= c <= '9') || c == '_'
  }

  /** `str.upper()` on one character, restricted to ASCII letters. */
  function UpperChar(c: char): char {
    if 'a' <= c <= 'z' then (c as int - 32) as char else c
  }

  function Upper(s: string): string {
    seq(|s|, i requires 0 <= i < |s| => UpperChar(s[i]))
  }

  lemma UpperIdempotent(s: string)
    ensures Upper(Upper(s)) == Upper(s)
  {
  }

  /** What `upper()` does to a string: the length is kept, every ASCII
      lower-case letter becomes the same letter in upper case, and every
      other character is left as it is. */
  lemma UpperMeans(s: string)
    ensures |Upper(s)| == |s|
    ensures forall i :: 0 <= i < |s| ==> !('a' <= Upper(s)[i] <= 'z')
    ensures forall i :: 0 <= i < |s| && 'a' <= s[i] <= 'z' ==>
              'A' <= Upper(s)[i] <= 'Z' && Upper(s)[i] as int - 'A' as int == s[i] as int - 'a' as int
    ensures forall i :: 0 <= i < |s| && !('a' <= s[i] <= 'z') ==> Upper(s)[i] == s[i]
  {
  }

  /** Python's `sub in s`. */
  predicate Contains(s: string, sub: string) {
    exists i :: 0 <= i <= |s| && OccursAt(s, sub, i)
  }

  predicate OccursAt(s: string, sub: string, i: nat) {
    i + |sub| <= |s| && s[i..i + |sub|] == sub
  }

  /** An occurrence stays one when text is added on either side. */
  lemma OccursWithin(a: string, b: string, c: string, sub: string, i: nat)
    requires OccursAt(b, sub, i)
    ensures OccursAt(a + b + c, sub, |a| + i)
  {
    assert (a + b + c)[|a| + i..|a| + i + |sub|] == b[i..i + |sub|];
  }

  predicate AllSpace(s: string) {
    forall i :: 0 <= i < |s| ==> IsSpace(s[i])
  }

  /** `str.lstrip()`: the longest suffix of `s` that does not start with
      whitespace. */
  function TrimStart(s: string): (r: string)
    ensures |r| <= |s| && r == s[|s| - |r|..]
    ensures AllSpace(s[..|s| - |r|])
    ensures r == [] || !IsSpace(r[0])
  {
    if |s| > 0 && IsSpace(s[0]) then
      var r := TrimStart(s[1..]);
      var spaces, spaces' := s[..|s| - |r|], s[1..][..|s| - 1 - |r|];
      assert forall i :: 0 <= i < |spaces'| ==> spaces[i + 1] == spaces'[i];
      r
    else s
  }

  /** `str.rstrip()`: the longest prefix of `s` that does not end with
      whitespace. */
  function TrimEnd(s: string): (r: string)
    ensures |r| <= |s| && r == s[..|r|]
    ensures AllSpace(s[|r|..])
    ensures r == [] || !IsSpace(r[|r| - 1])
  {
    if |s| > 0 && IsSpace(s[|s| - 1]) then
      var r := TrimEnd(s[..|s| - 1]);
      assert forall i :: 0 <= i < |s| - 1 - |r| ==> s[|r|..][i] == s[..|s| - 1][|r|..][i];
      r
    else s
  }

  /** No whitespace at either end: what `strip()` leaves. */
  predicate IsStripped(s: string) {
    s == [] || (!IsSpace(s[0]) && !IsSpace(s[|s| - 1]))
  }

  /** `str.strip()`. */
  function Strip(s: string): (r: string)
    ensures IsStripped(r)
    ensures forall c :: c in r ==> c in s
    ensures exists i, j :: 0 <= i <= j <= |s| && r == s[i..j] && AllSpace(s[..i]) && AllSpace(s[j..])
  {
    var t := TrimStart(s);
    var r := TrimEnd(t);
    TrimmedSlice(s, t, r);
    r
  }

  /** What the two trims leave is a slice of `s` with only whitespace on
      either side. */
  lemma TrimmedSlice(s: string, t: string, r: string)
    requires |t| <= |s| && t == s[|s| - |t|..] && AllSpace(s[..|s| - |t|])
    requires |r| <= |t| && r == t[..|r|] && AllSpace(t[|r|..])
    ensures exists i, j :: 0 <= i <= j <= |s| && r == s[i..j] && AllSpace(s[..i]) && AllSpace(s[j..])
  {
    var i := |s| - |t|;
    var j := i + |r|;
    assert r == s[i..j];
    assert s[j..] == t[|r|..];
  }

  /** Stripping a stripped string changes nothing. */
  lemma StripNoop(s: string)
    requires IsStripped(s)
    ensures Strip(s) == s
  {
    TrimStartNoop(s);
    TrimEndPadded(s, []);
    assert s + [] == s;
  }

  /** Stripping a stripped word followed by whitespace gives the word. */
  lemma StripPadded(a: string, w: string)
    requires a != [] && IsStripped(a)
    requires AllSpace(w)
    ensures Strip(a + w) == a
  {
    assert (a + w)[0] == a[0];
    TrimStartNoop(a + w);
    TrimEndPadded(a, w);
  }

  lemma TrimStartNoop(s: string)
    requires s == [] || !IsSpace(s[0])
    ensures TrimStart(s) == s
  {
  }

  /** Trailing whitespace after a word that does not end in whitespace is
      exactly what `rstrip` removes. */
  lemma {:induction false} TrimEndPadded(a: string, w: string)
    requires a == [] || !IsSpace(a[|a| - 1])
    requires AllSpace(w)
    ensures TrimEnd(a + w) == a
    decreases |w|
  {
    if w == [] {
      assert a + w == a;
    } else {
      var w' := w[..|w| - 1];
      assert (a + w)[|a + w| - 1] == w[|w| - 1];
      assert (a + w)[..|a + w| - 1] == a + w';
      TrimEndPadded(a, w');
    }
  }

  /** `sep.join(parts)`. */
  function Join(parts: seq<string>, sep: string): string
    decreases |parts|
  {
    if |parts| == 0 then []
    else if |parts| == 1 then parts[0]
    else parts[0] + sep + Join(parts[1..], sep)
  }

  lemma JoinCons(p: string, parts: seq<string>, sep: string)
    requires |parts| > 0
    ensures Join([p] + parts, sep) == p + sep + Join(parts, sep)
  {
    assert ([p] + parts)[1..] == parts;
  }

  /** Every part occurs in the joined text. */
  lemma {:induction false} JoinContains(parts: seq<string>, sep: string, k: nat)
    requires k < |parts|
    ensures Contains(Join(parts, sep), parts[k])
    decreases |parts|
  {
    if |parts| == 1 {
      OccursWithin([], parts[0], [], parts[0], 0);
      assert [] + parts[0] + [] == Join(parts, sep);
    } else if k == 0 {
      OccursWithin([], parts[0], sep + Join(parts[1..], sep), parts[0], 0);
      assert [] + parts[0] + (sep + Join(parts[1..], sep)) == Join(parts, sep);
    } else {
      JoinContains(parts[1..], sep, k - 1);
      var i :| 0 <= i <= |Join(parts[1..], sep)| && OccursAt(Join(parts[1..], sep), parts[k], i);
      OccursWithin(parts[0] + sep, Join(parts[1..], sep), [], parts[k], i);
      assert parts[0] + sep + Join(parts[1..], sep) + [] == Join(parts, sep);
    }
  }

  lemma {:induction false} JoinSnoc(parts: seq<string>, x: string, sep: string)
    requires |parts| > 0
    ensures Join(parts + [x], sep) == Join(parts, sep) + sep + x
    decreases |parts|
  {
    if |parts| == 1 {
      assert (parts + [x])[1..] == [x];
    } else {
      assert (parts + [x])[1..] == parts[1..] + [x];
      JoinSnoc(parts[1..], x, sep);
    }
  }

  /** `s.split(sep)` for a one-character separator. */
  function Split(s: string, sep: char): (r: seq<string>)
    ensures |r| >= 1
    ensures forall i :: 0 <= i < |r| ==> sep !in r[i]
    ensures Join(r, [sep]) == s
    decreases |s|
  {
    if s == [] then [[]]
    else
      var rest := Split(s[1..], sep);
      if s[0] == sep then
        JoinCons([], rest, [sep]);
        [[]] + rest
      else
        assert [rest[0]] + rest[1..] == rest;
        JoinPrepend([s[0]], rest[0], rest[1..], [sep]);
        [[s[0]] + rest[0]] + rest[1..]
  }

  lemma JoinPrepend(x: string, p: string, tail: seq<string>, sep: string)
    ensures Join([x + p] + tail, sep) == x + Join([p] + tail, sep)
  {
    if |tail| > 0 {
      var j := Join(tail, sep);
      assert ([x + p] + tail)[1..] == tail;
      assert ([p] + tail)[1..] == tail;
      assert (x + p) + sep + j == x + (p + sep + j);
    }
  }

  /** Split is the only way to cut a string at its separators: any list of
      separator-free pieces that joins back to `s` is `Split(s, sep)`. */
  lemma {:induction false} SplitUnique(s: string, sep: char, parts: seq<string>)
    requires |parts| >= 1
    requires forall i :: 0 <= i < |parts| ==> sep !in parts[i]
    requires Join(parts, [sep]) == s
    ensures parts == Split(s, sep)
    decreases |s|, |parts[0]|
  {
    if s == [] {
    } else if parts[0] == [] {
      if |parts| > 1 {
        JoinCons(parts[0], parts[1..], [sep]);
        assert s == [sep] + Join(parts[1..], [sep]);
        assert s[1..] == Join(parts[1..], [sep]);
        SplitUnique(s[1..], sep, parts[1..]);
        assert parts == [[]] + parts[1..];
      }
    } else {
      var tail := [parts[0][1..]] + parts[1..];
      assert [parts[0][0]] + parts[0][1..] == parts[0];
      assert tail[0] == parts[0][1..] && tail[1..] == parts[1..];
      assert parts == [[parts[0][0]] + tail[0]] + tail[1..];
      assert [tail[0]] + tail[1..] == tail;
      JoinPrepend([parts[0][0]], tail[0], tail[1..], [sep]);
      assert s[0] == parts[0][0] && s[0] != sep;
      assert s[1..] == Join(tail, [sep]);
      forall i | 0 <= i < |tail| ensures sep !in tail[i] {
        if i == 0 {
          assert forall c :: c in parts[0][1..] ==> c in parts[0];
        } else {
          assert tail[i] == parts[i];
        }
      }
      SplitUnique(s[1..], sep, tail);
      assert [[parts[0][0]] + tail[0]] + tail[1..] == parts;
    }
  }

  /** `s.replace(c, rep)` for a one-character pattern. */
  function ReplaceChar(s: string, c: char, rep: string): string
    decreases |s|
  {
    if s == [] then []
    else (if s[0] == c then rep else [s[0]]) + ReplaceChar(s[1..], c, rep)
  }

  /** Replacing a character that does not occur changes nothing. */
  lemma {:induction false} ReplaceCharAbsent(s: string, c: char, rep: string)
    requires c !in s
    ensures ReplaceChar(s, c, rep) == s
    decreases |s|
  {
    if s != [] {
      assert s[1..] + [] == s[1..];
      ReplaceCharAbsent(s[1..], c, rep);
      assert [s[0]] + s[1..] == s;
    }
  }

  lemma {:induction false} ReplaceCharAppend(a: string, b: string, c: char, rep: string)
    ensures ReplaceChar(a + b, c, rep) == ReplaceChar(a, c, rep) + ReplaceChar(b, c, rep)
    decreases |a|
  {
    if a != [] {
      assert (a + b)[1..] == a[1..] + b;
      ReplaceCharAppend(a[1..], b, c, rep);
    } else {
      assert a + b == b;
    }
  }

  /** Replacing in a text that ends with one occurrence of the pattern. */
  lemma ReplaceCharSnoc(a: string, m: string, c: char, rep: string)
    requires c !in m
    ensures ReplaceChar(a + (m + [c]), c, rep) == ReplaceChar(a, c, rep) + m + rep
  {
    ReplaceCharAppend(a, m + [c], c, rep);
    ReplaceCharAppend(m, [c], c, rep);
    ReplaceCharAbsent(m, c, rep);
    assert [c][1..] == [];
  }
}
