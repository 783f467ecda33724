/** The placeholder scanner of the key's constructor: the pattern
    `(:[\w_$]+)` found left to right with `Matcher.find`, and the rewrite of
    the i-th match to `:normalized_param_i`. */
module Placeholders {

  /** A character of the class `[\w_$]`; Java's `\w` is `[a-zA-Z_0-9]`. */
  predicate IsWordChar(c: char) {
    ('a' <= c <= 'z') || ('A' <= c <= 'Z') || ('0' <= c <= '9') || c == '_' || c == '$'
  }

  /** What can follow the colon of a placeholder: one or more word chars. */
  predicate IsName(n: string) {
    n != [] && forall k :: 0 <= k < |n| ==> IsWordChar(n[k])
  }

  /** The query text cut at its placeholders: a character copied as it is,
      or a placeholder `:name`. */
  datatype Token = Lit(c: char) | Ph(name: string)

  /** The length of the longest run of word chars at the start of `s`: how
      far the greedy `+` reaches. */
  function WordRun(s: string): (n: nat)
    ensures n <= |s|
    ensures forall k :: 0 <= k < n ==> IsWordChar(s[k])
    ensures n == |s| || !IsWordChar(s[n])
  {
    if s == [] || !IsWordChar(s[0]) then 0 else 1 + WordRun(s[1..])
  }

  /** The pattern matches at the first position of `s`. */
  predicate MatchesAt(s: string) {
    |s| >= 2 && s[0] == ':' && IsWordChar(s[1])
  }

  /** The successive `find` calls: try the pattern at the current position;
      on a match take the longest name and resume after it, otherwise copy
      one character and try at the next position. */
  function Tokenize(s: string): seq<Token>
    decreases |s|
  {
    if s == [] then []
    else if MatchesAt(s) then
      var n := 1 + WordRun(s[1..]);
      [Ph(s[1..n])] + Tokenize(s[n..])
    else
      [Lit(s[0])] + Tokenize(s[1..])
  }

  function RenderToken(t: Token): string {
    match t
    case Lit(c) => [c]
    case Ph(n) => [':'] + n
  }

  /** The text a token sequence stands for. */
  function Render(ts: seq<Token>): string {
    if ts == [] then [] else RenderToken(ts[0]) + Render(ts[1..])
  }

  /** The names of the placeholders, in text order, repetitions included. */
  function Names(ts: seq<Token>): seq<string> {
    if ts == [] then []
    else if ts[0].Ph? then [ts[0].name] + Names(ts[1..])
    else Names(ts[1..])
  }

  function DigitChar(d: nat): char
    requires d < 10
  {
    (48 + d) as char
  }

  /** `Integer.toString` of a non-negative counter. */
  function Decimal(n: nat): string {
    if n < 10 then [DigitChar(n)] else Decimal(n / 10) + [DigitChar(n % 10)]
  }

  const CanonicalPrefix: string := "normalized_param_"

  /** `"normalized_param_" + i`. */
  function CanonicalName(i: nat): string {
    CanonicalPrefix + Decimal(i)
  }

  /** Whether a name has the shape of a canonical name. */
  predicate HasCanonicalPrefix(n: string) {
    |CanonicalPrefix| <= |n| && n[..|CanonicalPrefix|] == CanonicalPrefix
  }

  /** The rewrite: the k-th placeholder (counting from `i`) becomes
      `:normalized_param_k`; every other character is kept. */
  function Normalize(ts: seq<Token>, i: nat): seq<Token> {
    if ts == [] then []
    else if ts[0].Ph? then [Ph(CanonicalName(i))] + Normalize(ts[1..], i + 1)
    else [ts[0]] + Normalize(ts[1..], i)
  }

  /** The canonical query text the constructor builds with
      `appendReplacement`/`appendTail`. */
  function CanonicalText(q: string): string {
    Render(Normalize(Tokenize(q), 0))
  }

  /** A token sequence the scanner could have produced: each placeholder has
      a name, and a word char copied as it is never follows a placeholder
      (the match would have been longer) nor a copied colon (it would have
      been a match). */
  predicate WellFormed(ts: seq<Token>) {
    && (forall k :: 0 <= k < |ts| && ts[k].Ph? ==> IsName(ts[k].name))
    && (forall k :: 0 < k < |ts| && ts[k].Lit? && IsWordChar(ts[k].c) ==>
          ts[k - 1].Lit? && ts[k - 1].c != ':')
  }

  /** Replace the names of the placeholders, in order, by `ns`. */
  function Rename(ts: seq<Token>, ns: seq<string>): seq<Token>
    requires |ns| == |Names(ts)|
  {
    if ts == [] then []
    else if ts[0].Ph? then [Ph(ns[0])] + Rename(ts[1..], ns[1..])
    else [ts[0]] + Rename(ts[1..], ns)
  }

  // ---------------------------------------------------------------------
  // Small facts about the definitions

  lemma WellFormedCons(ts: seq<Token>)
    requires ts != []
    ensures WellFormed(ts) <==>
              && (ts[0].Ph? ==> IsName(ts[0].name))
              && WellFormed(ts[1..])
              && (|ts| > 1 && ts[1].Lit? && IsWordChar(ts[1].c) ==> ts[0].Lit? && ts[0].c != ':')
  {
    var t := ts[1..];
    if (ts[0].Ph? ==> IsName(ts[0].name)) && WellFormed(t)
       && (|ts| > 1 && ts[1].Lit? && IsWordChar(ts[1].c) ==> ts[0].Lit? && ts[0].c != ':')
    {
      forall k | 0 < k < |ts| && ts[k].Lit? && IsWordChar(ts[k].c)
        ensures ts[k - 1].Lit? && ts[k - 1].c != ':'
      {
        if k > 1 {
          assert t[k - 1] == ts[k] && t[k - 2] == ts[k - 1];
        }
      }
      forall k | 0 <= k < |ts| && ts[k].Ph? ensures IsName(ts[k].name) {
        if k > 0 {
          assert t[k - 1] == ts[k];
        }
      }
    }
    if WellFormed(ts) {
      forall k | 0 < k < |t| && t[k].Lit? && IsWordChar(t[k].c)
        ensures t[k - 1].Lit? && t[k - 1].c != ':'
      {
        assert ts[k + 1] == t[k];
      }
      forall k | 0 <= k < |t| && t[k].Ph? ensures IsName(t[k].name) {
        assert ts[k + 1] == t[k];
      }
    }
  }

  /** The first token of a scan comes from the first character. */
  lemma TokenizeHead(s: string)
    ensures Tokenize(s) == [] <==> s == []
    ensures s != [] ==> (Tokenize(s)[0].Lit? ==> Tokenize(s)[0].c == s[0])
    ensures s != [] ==> (Tokenize(s)[0].Ph? ==> s[0] == ':')
  {
  }

  /** The first character of a rendering comes from the first token. */
  lemma RenderHead(ts: seq<Token>)
    requires WellFormed(ts)
    ensures Render(ts) == [] <==> ts == []
    ensures ts != [] ==> Render(ts)[0] == (if ts[0].Lit? then ts[0].c else ':')
  {
  }

  /** The greedy run over a name stops where the name stops when what
      follows is not a word char. */
  lemma {:induction false} WordRunOfName(n: string, rest: string)
    requires IsName(n)
    requires rest == [] || !IsWordChar(rest[0])
    ensures WordRun(n + rest) == |n|
  {
    var s := n + rest;
    if |n| > 1 {
      assert s[1..] == n[1..] + rest;
      WordRunOfName(n[1..], rest);
    } else {
      assert s[1..] == rest;
    }
  }

  // ---------------------------------------------------------------------
  // The scanner is exact

  /** Scanning loses nothing: the tokens render back to the text. */
  lemma {:induction false} RenderTokenize(s: string)
    ensures Render(Tokenize(s)) == s
    decreases |s|
  {
    if s != [] {
      if MatchesAt(s) {
        var n := 1 + WordRun(s[1..]);
        RenderTokenize(s[n..]);
        RenderCons(Ph(s[1..n]), Tokenize(s[n..]));
        assert [':'] + s[1..n] + s[n..] == s;
      } else {
        RenderTokenize(s[1..]);
        RenderCons(Lit(s[0]), Tokenize(s[1..]));
        assert [s[0]] + s[1..] == s;
      }
    }
  }

  lemma RenderCons(t: Token, ts: seq<Token>)
    ensures Render([t] + ts) == RenderToken(t) + Render(ts)
  {
    assert ([t] + ts)[1..] == ts;
  }

  /** Every scan is well formed: placeholders are maximal matches. */
  lemma {:induction false} TokenizeWellFormed(s: string)
    ensures WellFormed(Tokenize(s))
    decreases |s|
  {
    if s != [] {
      var ts := Tokenize(s);
      if MatchesAt(s) {
        var n := 1 + WordRun(s[1..]);
        TokenizeWellFormed(s[n..]);
        TokenizeHead(s[n..]);
        assert ts[1..] == Tokenize(s[n..]);
        assert IsName(s[1..n]);
      } else {
        TokenizeWellFormed(s[1..]);
        TokenizeHead(s[1..]);
        assert ts[1..] == Tokenize(s[1..]);
      }
      WellFormedCons(ts);
    }
  }

  /** A well-formed token sequence is exactly what scanning its rendering
      gives back: together with `RenderTokenize`, the scanner finds precisely
      the placeholders and nothing else. */
  lemma {:induction false} TokenizeRender(ts: seq<Token>)
    requires WellFormed(ts)
    ensures Tokenize(Render(ts)) == ts
  {
    if ts != [] {
      WellFormedCons(ts);
      TokenizeRender(ts[1..]);
      RenderHead(ts[1..]);
      if ts[0].Lit? {
        ScanLiteral(ts[0].c, Render(ts[1..]));
      } else {
        ScanPlaceholder(ts[0].name, Render(ts[1..]));
      }
    }
  }

  /** A copied character not starting a match is scanned as itself. */
  lemma ScanLiteral(c: char, rest: string)
    requires !(c == ':' && rest != [] && IsWordChar(rest[0]))
    ensures Tokenize([c] + rest) == [Lit(c)] + Tokenize(rest)
  {
    var s := [c] + rest;
    assert s[1..] == rest;
  }

  /** A placeholder followed by a non-word char is scanned as one match. */
  lemma ScanPlaceholder(n: string, rest: string)
    requires IsName(n)
    requires rest == [] || !IsWordChar(rest[0])
    ensures Tokenize([':'] + n + rest) == [Ph(n)] + Tokenize(rest)
  {
    var s := [':'] + n + rest;
    assert s[1..] == n + rest;
    WordRunOfName(n, rest);
    assert s[1..1 + |n|] == n;
    assert s[1 + |n|..] == rest;
  }

  // ---------------------------------------------------------------------
  // Canonical names

  lemma {:induction false} DecimalIsDigits(n: nat)
    ensures |Decimal(n)| >= 1
    ensures forall k :: 0 <= k < |Decimal(n)| ==> '0' <= Decimal(n)[k] <= '9'
  {
    if n >= 10 {
      DecimalIsDigits(n / 10);
    }
  }

  /** Different counters give different decimal strings. */
  lemma {:induction false} DecimalInjective(a: nat, b: nat)
    requires Decimal(a) == Decimal(b)
    ensures a == b
  {
    DecimalIsDigits(a / 10);
    DecimalIsDigits(b / 10);
    if a >= 10 && b >= 10 {
      var da, db := Decimal(a), Decimal(b);
      assert da[|da| - 1] == DigitChar(a % 10) && db[|db| - 1] == DigitChar(b % 10);
      assert da[..|da| - 1] == Decimal(a / 10) && db[..|db| - 1] == Decimal(b / 10);
      DecimalInjective(a / 10, b / 10);
    }
  }

  /** Canonical names are placeholder names with the canonical prefix, and no
      two counters share one. */
  lemma CanonicalNameFacts(i: nat)
    ensures IsName(CanonicalName(i))
    ensures HasCanonicalPrefix(CanonicalName(i))
    ensures forall j: nat :: CanonicalName(j) == CanonicalName(i) ==> j == i
  {
    DecimalIsDigits(i);
    var c := CanonicalName(i);
    assert c[..|CanonicalPrefix|] == CanonicalPrefix;
    forall k | 0 <= k < |c| ensures IsWordChar(c[k]) {
      if k >= |CanonicalPrefix| {
        assert c[k] == Decimal(i)[k - |CanonicalPrefix|];
      }
    }
    forall j: nat | CanonicalName(j) == c ensures j == i {
      assert CanonicalName(j)[|CanonicalPrefix|..] == Decimal(j);
      assert c[|CanonicalPrefix|..] == Decimal(i);
      DecimalInjective(i, j);
    }
  }

  // ---------------------------------------------------------------------
  // The rewrite

  /** The shape of the rewrite: it keeps every copied character in place and
      turns the placeholder at position `j` into the canonical name whose
      counter is `i` plus the number of placeholders before it. */
  lemma {:induction false} NormalizeShape(ts: seq<Token>, i: nat)
    ensures |Normalize(ts, i)| == |ts|
    ensures forall j :: 0 <= j < |ts| ==>
              Normalize(ts, i)[j] ==
                (if ts[j].Lit? then ts[j] else Ph(CanonicalName(i + |Names(ts[..j])|)))
  {
    if ts != [] {
      var i' := if ts[0].Ph? then i + 1 else i;
      var rest := Normalize(ts[1..], i');
      var head := if ts[0].Ph? then Ph(CanonicalName(i)) else ts[0];
      assert Normalize(ts, i) == [head] + rest;
      NormalizeShape(ts[1..], i');
      assert Names(ts[..0]) == [];
      forall j | 0 < j < |ts|
        ensures Normalize(ts, i)[j] ==
                  (if ts[j].Lit? then ts[j] else Ph(CanonicalName(i + |Names(ts[..j])|)))
      {
        NamesBefore(ts, j);
        assert Normalize(ts, i)[j] == rest[j - 1];
      }
    }
  }

  /** The placeholders before position `j` are the first token's, if it is
      one, and those before position `j - 1` of the rest. */
  lemma NamesBefore(ts: seq<Token>, j: nat)
    requires 0 < j <= |ts|
    ensures |Names(ts[..j])| == |Names(ts[1..][..j - 1])| + (if ts[0].Ph? then 1 else 0)
  {
    var p := ts[..j];
    assert p[0] == ts[0];
    assert p[1..] == ts[1..][..j - 1];
  }

  /** The names the rewritten text carries: `normalized_param_i`,
      `normalized_param_(i+1)`, ... one per placeholder. */
  lemma {:induction false} NormalizeNames(ts: seq<Token>, i: nat)
    ensures |Names(Normalize(ts, i))| == |Names(ts)|
    ensures forall k :: 0 <= k < |Names(ts)| ==> Names(Normalize(ts, i))[k] == CanonicalName(i + k)
  {
    if ts != [] {
      if ts[0].Ph? {
        NormalizeNames(ts[1..], i + 1);
      } else {
        NormalizeNames(ts[1..], i);
      }
    }
  }

  /** The rewrite keeps a token sequence well formed. */
  lemma {:induction false} NormalizeWellFormed(ts: seq<Token>, i: nat)
    requires WellFormed(ts)
    ensures WellFormed(Normalize(ts, i))
  {
    if ts != [] {
      WellFormedCons(ts);
      var i' := if ts[0].Ph? then i + 1 else i;
      NormalizeWellFormed(ts[1..], i');
      CanonicalNameFacts(i);
      var r := Normalize(ts, i);
      assert r[1..] == Normalize(ts[1..], i');
      if |ts| > 1 {
        NormalizeShape(ts[1..], i');
        assert Names(ts[1..][..0]) == [];
      }
      WellFormedCons(r);
    }
  }

  /** The rewrite looks only at where the placeholders are, not at their
      names. */
  lemma {:induction false} NormalizeRename(ts: seq<Token>, ns: seq<string>, i: nat)
    requires |ns| == |Names(ts)|
    ensures Normalize(Rename(ts, ns), i) == Normalize(ts, i)
  {
    if ts != [] {
      if ts[0].Ph? {
        NormalizeRename(ts[1..], ns[1..], i + 1);
      } else {
        NormalizeRename(ts[1..], ns, i);
      }
    }
  }

  /** Renaming placeholders to valid names keeps a sequence well formed and
      puts exactly the new names in. */
  lemma {:induction false} RenameWellFormed(ts: seq<Token>, ns: seq<string>)
    requires WellFormed(ts) && |ns| == |Names(ts)|
    requires forall k :: 0 <= k < |ns| ==> IsName(ns[k])
    ensures WellFormed(Rename(ts, ns))
    ensures Names(Rename(ts, ns)) == ns
  {
    if ts != [] {
      WellFormedCons(ts);
      var ns' := if ts[0].Ph? then ns[1..] else ns;
      RenameWellFormed(ts[1..], ns');
      var r := Rename(ts, ns);
      assert r[1..] == Rename(ts[1..], ns');
      if |ts| > 1 {
        RenameHead(ts[1..], ns');
      }
      WellFormedCons(r);
    }
  }

  lemma RenameHead(ts: seq<Token>, ns: seq<string>)
    requires ts != [] && |ns| == |Names(ts)|
    ensures Rename(ts, ns)[0].Lit? <==> ts[0].Lit?
    ensures ts[0].Lit? ==> Rename(ts, ns)[0] == ts[0]
  {
  }

  // ---------------------------------------------------------------------
  // The canonical text

  /** Every placeholder name of a well-formed token sequence is a name. */
  lemma {:induction false} WellFormedNames(ts: seq<Token>)
    requires WellFormed(ts)
    ensures forall k :: 0 <= k < |Names(ts)| ==> IsName(Names(ts)[k])
  {
    if ts != [] {
      WellFormedCons(ts);
      WellFormedNames(ts[1..]);
    }
  }

  /** Scanning the canonical text again finds the same cut with the names
      `normalized_param_0`, `normalized_param_1`, ... in order: one per
      placeholder of the original text. */
  lemma CanonicalTextRescan(q: string)
    ensures Tokenize(CanonicalText(q)) == Normalize(Tokenize(q), 0)
    ensures |Names(Tokenize(CanonicalText(q)))| == |Names(Tokenize(q))|
    ensures forall k :: 0 <= k < |Names(Tokenize(q))| ==>
              Names(Tokenize(CanonicalText(q)))[k] == CanonicalName(k)
  {
    var ts := Tokenize(q);
    assert Tokenize(CanonicalText(q)) == Normalize(ts, 0) by {
      TokenizeWellFormed(q);
      NormalizeWellFormed(ts, 0);
      TokenizeRender(Normalize(ts, 0));
    }
    NormalizeNames(ts, 0);
  }

  /** Canonicalizing is idempotent: a canonical text is its own canonical
      form. */
  lemma CanonicalTextIdempotent(q: string)
    ensures CanonicalText(CanonicalText(q)) == CanonicalText(q)
  {
    CanonicalTextRescan(q);
    var ts := Tokenize(q);
    NormalizeNames(ts, 0);
    var cs := CanonicalNames(0, |Names(ts)|);
    assert Names(Normalize(ts, 0)) == cs;
    NormalizeRename(ts, cs, 0);
    NormalizeIsRename(ts, 0);
  }

  /** `normalized_param_i`, ..., `normalized_param_(i+n-1)`. */
  function CanonicalNames(i: nat, n: nat): (r: seq<string>)
    ensures |r| == n
    ensures forall k :: 0 <= k < n ==> r[k] == CanonicalName(i + k)
    decreases n
  {
    if n == 0 then [] else [CanonicalName(i)] + CanonicalNames(i + 1, n - 1)
  }

  /** The rewrite is the renaming to canonical names. */
  lemma {:induction false} NormalizeIsRename(ts: seq<Token>, i: nat)
    ensures Normalize(ts, i) == Rename(ts, CanonicalNames(i, |Names(ts)|))
  {
    if ts != [] {
      if ts[0].Ph? {
        NormalizeIsRename(ts[1..], i + 1);
      } else {
        NormalizeIsRename(ts[1..], i);
      }
    }
  }

  /** Queries that differ only in their placeholder names have the same
      canonical text: renaming the placeholders of `q` to any valid names
      `ns` gives a text whose scan finds exactly those names and whose
      canonical text is that of `q`. */
  lemma RenamedTextSameCanonicalText(q: string, ns: seq<string>)
    requires |ns| == |Names(Tokenize(q))|
    requires forall k :: 0 <= k < |ns| ==> IsName(ns[k])
    ensures Tokenize(Render(Rename(Tokenize(q), ns))) == Rename(Tokenize(q), ns)
    ensures Names(Tokenize(Render(Rename(Tokenize(q), ns)))) == ns
    ensures CanonicalText(Render(Rename(Tokenize(q), ns))) == CanonicalText(q)
  {
    var ts := Tokenize(q);
    TokenizeWellFormed(q);
    RenameWellFormed(ts, ns);
    TokenizeRender(Rename(ts, ns));
    NormalizeRename(ts, ns, 0);
  }
}
