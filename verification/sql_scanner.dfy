/** The two regular expressions of `order_sql_commands`, as explicit
    scanners (case-insensitive, ASCII):

      header     CREATE TABLE\s+["`]?(\w+)["`]?\s*\(          (re.search)
      reference  REFERENCES\s+["`]?(\w+)["`]?\s*(?:\(|\s)      (re.findall)

    Each pattern is also given declaratively, as a "shape" over positions in
    the text, and the scanners are proved to compute exactly what the
    backtracking matcher returns at one position: the unique captured name
    and, for a reference, the greediest match end. */
module SqlScanner {
  import opened PyText

  datatype Option<T> = None | Some(value: T)

  /** A reference match: the captured table name and where `findall`
      resumes. */
  datatype Capture = Capture(name: string, end: nat)

  /** A search result: what the pattern captured and where the match starts. */
  datatype Hit<T> = Hit(found: T, at: nat)

  const CreateTable: string := "CREATE TABLE"
  const References: string := "REFERENCES"

  predicate IsQuote(c: char) {
    c == '"' || c == '`'
  }

  predicate IsIdentifier(n: string) {
    |n| > 0 && forall k :: 0 <= k < |n| ==> IsWordChar(n[k])
  }

  /** Case-insensitive occurrence of the upper-case keyword `kw` at `p`. */
  predicate KeywordAt(s: string, p: nat, kw: string) {
    p + |kw| <= |s| && forall k :: 0 <= k < |kw| ==> UpperChar(s[p + k]) == kw[k]
  }

  predicate SpaceBetween(s: string, i: nat, j: nat)
    requires i <= j <= |s|
  {
    forall k :: i <= k < j ==> IsSpace(s[k])
  }

  predicate WordBetween(s: string, i: nat, j: nat)
    requires i <= j <= |s|
  {
    forall k :: i <= k < j ==> IsWordChar(s[k])
  }

  /** End of the longest whitespace run starting at `i`. */
  function SpaceEnd(s: string, i: nat): (j: nat)
    requires i <= |s|
    ensures i <= j <= |s| && SpaceBetween(s, i, j)
    ensures j == |s| || !IsSpace(s[j])
    decreases |s| - i
  {
    if i < |s| && IsSpace(s[i]) then SpaceEnd(s, i + 1) else i
  }

  /** End of the longest run of word characters starting at `i`. */
  function WordEnd(s: string, i: nat): (j: nat)
    requires i <= |s|
    ensures i <= j <= |s| && WordBetween(s, i, j)
    ensures j == |s| || !IsWordChar(s[j])
    decreases |s| - i
  {
    if i < |s| && IsWordChar(s[i]) then WordEnd(s, i + 1) else i
  }

  /** Skips one optional quote character. */
  function SkipQuote(s: string, i: nat): nat
    requires i <= |s|
  {
    if i < |s| && IsQuote(s[i]) then i + 1 else i
  }

  /** The header pattern tried at position `p`: the table name if it matches. */
  function HeaderAt(s: string, p: nat): (r: Option<string>)
    ensures r.Some? ==> IsIdentifier(r.value)
  {
    if !KeywordAt(s, p, CreateTable) then None
    else
      var a := SpaceEnd(s, p + |CreateTable|);
      if a == p + |CreateTable| then None
      else
        var b := SkipQuote(s, a);
        var c := WordEnd(s, b);
        if c == b then None
        else if OpensAt(s, SkipQuote(s, c)) then Some(s[b..c])
        else None
  }

  /** Optional whitespace from `d`, then `(`. */
  predicate OpensAt(s: string, d: nat)
    requires d <= |s|
  {
    var e := SpaceEnd(s, d);
    e < |s| && s[e] == '('
  }

  /** The reference pattern tried at position `p`. */
  function RefAt(s: string, p: nat): (r: Option<Capture>)
    ensures r.Some? ==> IsIdentifier(r.value.name) && p < r.value.end <= |s|
  {
    if !KeywordAt(s, p, References) then None
    else
      var a := SpaceEnd(s, p + |References|);
      if a == p + |References| then None
      else
        var b := SkipQuote(s, a);
        var c := WordEnd(s, b);
        if c == b then None
        else RefEnd(s, SkipQuote(s, c), s[b..c])
  }

  /** The end of the reference pattern after the name and its optional
      quote, which end at `d`: whitespace then `(`, consumed; or at least one
      whitespace character, the last of which is given back. */
  function RefEnd(s: string, d: nat, name: string): (r: Option<Capture>)
    requires d <= |s|
    ensures r.Some? ==> r.value.name == name && d < r.value.end <= |s|
  {
    var e := SpaceEnd(s, d);
    if e < |s| && s[e] == '(' then Some(Capture(name, e + 1))
    else if e > d then Some(Capture(name, e))
    else None
  }

  /** The header pattern as positions: keyword at `p`, whitespace up to `a`,
      an optional quote up to `b`, the name `s[b..c]`, an optional quote up
      to `d`, whitespace up to `e`, and `(` at `e`. */
  ghost predicate HeaderShape(s: string, p: nat, a: nat, b: nat, c: nat, d: nat, e: nat) {
    p + |CreateTable| < a <= b < c <= d <= e < |s|
    && KeywordAt(s, p, CreateTable)
    && SpaceBetween(s, p + |CreateTable|, a)
    && (b == a || (b == a + 1 && IsQuote(s[a])))
    && WordBetween(s, b, c)
    && (d == c || (d == c + 1 && IsQuote(s[c])))
    && SpaceBetween(s, d, e)
    && s[e] == '('
  }

  /** The reference pattern as positions; the match ends at `e`, after a
      `(` or a whitespace character at `e - 1`. */
  ghost predicate RefShape(s: string, p: nat, a: nat, b: nat, c: nat, d: nat, e: nat) {
    p + |References| < a <= b < c <= d < e <= |s|
    && KeywordAt(s, p, References)
    && SpaceBetween(s, p + |References|, a)
    && (b == a || (b == a + 1 && IsQuote(s[a])))
    && WordBetween(s, b, c)
    && (d == c || (d == c + 1 && IsQuote(s[c])))
    && SpaceBetween(s, d, e - 1)
    && (s[e - 1] == '(' || IsSpace(s[e - 1]))
  }

  lemma SpaceEndIs(s: string, i: nat, j: nat)
    requires i <= j <= |s| && SpaceBetween(s, i, j)
    requires j == |s| || !IsSpace(s[j])
    ensures SpaceEnd(s, i) == j
  {
  }

  lemma WordEndIs(s: string, i: nat, j: nat)
    requires i <= j <= |s| && WordBetween(s, i, j)
    requires j == |s| || !IsWordChar(s[j])
    ensures WordEnd(s, i) == j
  {
  }

  /** The positions of a shape's name are forced: `a`, `b`, `c` and `d` are
      the ones the scanners compute. */
  lemma NamePositionsForced(s: string, kwEnd: nat, a: nat, b: nat, c: nat, d: nat)
    requires kwEnd < a <= b < c <= d <= |s|
    requires SpaceBetween(s, kwEnd, a)
    requires b == a || (b == a + 1 && IsQuote(s[a]))
    requires WordBetween(s, b, c)
    requires d == c || (d == c + 1 && IsQuote(s[c]))
    requires d == c ==> c == |s| || IsSpace(s[c]) || s[c] == '('
    ensures SpaceEnd(s, kwEnd) == a
    ensures SkipQuote(s, a) == b
    ensures WordEnd(s, b) == c
    ensures SkipQuote(s, c) == d
  {
    assert !IsSpace(s[a]) by {
      if b == a { assert IsWordChar(s[b]); }
    }
    SpaceEndIs(s, kwEnd, a);
    if b == a {
      assert IsWordChar(s[a]);
    }
    WordEndIs(s, b, c);
  }

  /** The header pattern matches at `p` exactly when the text has the header
      shape there, and then the captured name is the shape's name. */
  lemma HeaderAtIsShape(s: string, p: nat)
    ensures HeaderAt(s, p).Some? <==> exists a: nat, b: nat, c: nat, d: nat, e: nat :: HeaderShape(s, p, a, b, c, d, e)
    ensures forall a: nat, b: nat, c: nat, d: nat, e: nat :: HeaderShape(s, p, a, b, c, d, e) ==> HeaderAt(s, p) == Some(s[b..c])
  {
    if HeaderAt(s, p).Some? {
      var a, b, c, d, e := HeaderWitness(s, p);
    }
    forall a: nat, b: nat, c: nat, d: nat, e: nat | HeaderShape(s, p, a, b, c, d, e)
      ensures HeaderAt(s, p) == Some(s[b..c])
    {
      HeaderShapeIsHeaderAt(s, p, a, b, c, d, e);
    }
  }

  /** The positions the scanners compute form a header shape. */
  lemma HeaderWitness(s: string, p: nat) returns (a: nat, b: nat, c: nat, d: nat, e: nat)
    requires HeaderAt(s, p).Some?
    ensures HeaderShape(s, p, a, b, c, d, e) && HeaderAt(s, p) == Some(s[b..c])
  {
    a := SpaceEnd(s, p + |CreateTable|);
    b := SkipQuote(s, a);
    c := WordEnd(s, b);
    d := SkipQuote(s, c);
    e := SpaceEnd(s, d);
    assert HeaderShape(s, p, a, b, c, d, e);
  }

  lemma HeaderShapeIsHeaderAt(s: string, p: nat, a: nat, b: nat, c: nat, d: nat, e: nat)
    requires HeaderShape(s, p, a, b, c, d, e)
    ensures HeaderAt(s, p) == Some(s[b..c])
  {
    HeaderPositions(s, p, a, b, c, d, e);
  }

  lemma HeaderPositions(s: string, p: nat, a: nat, b: nat, c: nat, d: nat, e: nat)
    requires HeaderShape(s, p, a, b, c, d, e)
    ensures SpaceEnd(s, p + |CreateTable|) == a && SkipQuote(s, a) == b
    ensures WordEnd(s, b) == c && SkipQuote(s, c) == d && OpensAt(s, d)
  {
    NamePositionsForced(s, p + |CreateTable|, a, b, c, d);
    SpaceEndIs(s, d, e);
  }

  /** The reference pattern matches at `p` exactly when the text has the
      reference shape there; the captured name is the shape's name, and the
      match ends at the greediest end any shape allows. */
  lemma RefAtIsShape(s: string, p: nat)
    ensures RefAt(s, p).Some? <==> exists a: nat, b: nat, c: nat, d: nat, e: nat :: RefShape(s, p, a, b, c, d, e)
    ensures RefAt(s, p).Some? ==> exists a: nat, b: nat, c: nat, d: nat :: RefShape(s, p, a, b, c, d, RefAt(s, p).value.end)
    ensures forall a: nat, b: nat, c: nat, d: nat, e: nat :: RefShape(s, p, a, b, c, d, e) ==>
              RefAt(s, p).Some? && RefAt(s, p).value.name == s[b..c] && e <= RefAt(s, p).value.end
  {
    if RefAt(s, p).Some? {
      RefAtHasShape(s, p);
    }
    forall a: nat, b: nat, c: nat, d: nat, e: nat | RefShape(s, p, a, b, c, d, e)
      ensures RefAt(s, p).Some? && RefAt(s, p).value.name == s[b..c] && e <= RefAt(s, p).value.end
    {
      RefShapeIsRefAt(s, p, a, b, c, d, e);
    }
  }

  lemma RefAtHasShape(s: string, p: nat)
    requires RefAt(s, p).Some?
    ensures RefShape(s, p, SpaceEnd(s, p + |References|), SkipQuote(s, SpaceEnd(s, p + |References|)),
                     WordEnd(s, SkipQuote(s, SpaceEnd(s, p + |References|))),
                     SkipQuote(s, WordEnd(s, SkipQuote(s, SpaceEnd(s, p + |References|)))),
                     RefAt(s, p).value.end)
  {
  }

  lemma RefShapeIsRefAt(s: string, p: nat, a: nat, b: nat, c: nat, d: nat, e: nat)
    requires RefShape(s, p, a, b, c, d, e)
    ensures RefAt(s, p).Some? && RefAt(s, p).value.name == s[b..c] && e <= RefAt(s, p).value.end
  {
    assert d == c ==> IsSpace(s[c]) || s[c] == '(' by {
      if d == c && e - 1 == d { assert s[c] == '(' || IsSpace(s[c]); }
    }
    NamePositionsForced(s, p + |References|, a, b, c, d);
    RefEndReaches(s, d, e, s[b..c]);
  }

  /** Any end a reference shape allows is reached by `RefEnd`. */
  lemma RefEndReaches(s: string, d: nat, e: nat, name: string)
    requires d < e <= |s| && SpaceBetween(s, d, e - 1)
    requires s[e - 1] == '(' || IsSpace(s[e - 1])
    ensures RefEnd(s, d, name).Some? && e <= RefEnd(s, d, name).value.end
  {
    if IsSpace(s[e - 1]) {
      SpaceEndPast(s, d, e);
    } else {
      SpaceEndIs(s, d, e - 1);
    }
  }

  /** The whitespace run from `i` reaches at least as far as any run of
      whitespace from `i`. */
  lemma {:induction false} SpaceEndPast(s: string, i: nat, j: nat)
    requires i <= j <= |s| && SpaceBetween(s, i, j)
    ensures j <= SpaceEnd(s, i)
    decreases j - i
  {
    if i < j {
      SpaceEndPast(s, i + 1, j);
    }
  }

  /** `re.search`: the leftmost start position in `[i, n)` at which the
      pattern `f` matches, with what it captures there. */
  function Leftmost<T>(f: nat -> Option<T>, i: nat, n: nat): (r: Option<Hit<T>>)
    requires i <= n
    ensures r.None? ==> forall q :: i <= q < n ==> f(q).None?
    ensures r.Some? ==> i <= r.value.at < n && f(r.value.at) == Some(r.value.found)
    ensures r.Some? ==> forall q :: i <= q < r.value.at ==> f(q).None?
    decreases n - i
  {
    if i == n then None
    else
      match f(i)
      case Some(x) => Some(Hit(x, i))
      case None => Leftmost(f, i + 1, n)
  }

  /** The table name the header search captures, if any. */
  function FindHeader(s: string): (r: Option<string>)
    ensures r.None? <==> forall p :: 0 <= p <= |s| ==> HeaderAt(s, p).None?
    ensures r.Some? ==> exists p :: 0 <= p <= |s| && HeaderAt(s, p) == r
                                  && forall q :: 0 <= q < p ==> HeaderAt(s, q).None?
  {
    var f: nat -> Option<string> := (p: nat) => HeaderAt(s, p);
    assert forall q: nat :: f(q) == HeaderAt(s, q);
    match Leftmost(f, 0, |s| + 1)
    case Some(h) => Some(h.found)
    case None => None
  }

  /** Some reference match at or after `i` captures `n`. */
  ghost predicate CapturedFrom(s: string, i: nat, n: string) {
    exists p :: i <= p < |s| && RefAt(s, p).Some? && RefAt(s, p).value.name == n
  }

  /** `re.findall` with the reference pattern, scanning from `i`: each match
      is the leftmost one at or after the end of the previous match. */
  function FindAllRefs(s: string, i: nat): (r: seq<string>)
    requires i <= |s|
    ensures forall k :: 0 <= k < |r| ==> IsIdentifier(r[k])
    ensures forall k :: 0 <= k < |r| ==> CapturedFrom(s, i, r[k])
    decreases |s| - i
  {
    if i == |s| then []
    else
      match RefAt(s, i)
      case Some(m) =>
        var rest := FindAllRefs(s, m.end);
        forall k | 0 <= k < |rest| ensures CapturedFrom(s, i, rest[k]) {
          assert CapturedFrom(s, m.end, rest[k]);
          var p :| m.end <= p < |s| && RefAt(s, p).Some? && RefAt(s, p).value.name == rest[k];
        }
        [m.name] + rest
      case None =>
        var rest := FindAllRefs(s, i + 1);
        forall k | 0 <= k < |rest| ensures CapturedFrom(s, i, rest[k]) {
          assert CapturedFrom(s, i + 1, rest[k]);
          var p :| i + 1 <= p < |s| && RefAt(s, p).Some? && RefAt(s, p).value.name == rest[k];
        }
        rest
  }
}
