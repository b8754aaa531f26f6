/** The evaluator of restricted-asset verifier strings, src/LibBoolEE.cpp. */
module BoolEE {
  import opened Chars

  datatype Error = EmptySubExpression | UnknownOperator | ParenthesisParity | NotAFormula | VariableNotFound

  datatype Outcome<+T> = Ok(value: T) | Thrown(error: Error)

  type Vals = map<string, bool>

  predicate BelongsToName(c: char) {
    'a' <= c <= 'z' || 'A' <= c <= 'Z' || '0' <= c <= '9' || c == '_' || c == '#' || c == '.'
  }

  function Without(s: string): (r: string)
    ensures |r| <= |s|
  {
    if s == "" then "" else (if IsSpace(s[0]) then "" else [s[0]]) + Without(s[1..])
  }

  method RemoveWhitespaces(source: string) returns (result: string)
    ensures result == Without(source)
  {
    result := "";
    for i := 0 to |source|
      invariant result + Without(source[i..]) == Without(source)
    {
      assert source[i..][1..] == source[i + 1..];
      ghost var rest := Without(source[i + 1..]);
      assert result + ([source[i]] + rest) == (result + [source[i]]) + rest && result + ("" + rest) == result + rest;
      if !IsSpace(source[i]) {
        result := result + [source[i]];
      }
    }
  }

  // ----- Splitting at a top-level operator -----

  /** The subexpression being collected; none before its first character. */
  datatype Piece = NoPiece | Piece(text: string) {
    function Grow(c: char): Piece {
      if NoPiece? then this else Piece(text + [c])
    }

    function Text(): string {
      if NoPiece? then "" else text
    }

    function Start(c: char): Piece {
      Piece(Text() + [c])
    }
  }

  /** What the scan of singleParse yields from here on. */
  function Scan(rest: string, op: char, piece: Piece, parity: int, subs: seq<string>): Outcome<seq<string>> {
    if rest == "" then
      if parity != 0 then Thrown(ParenthesisParity) else Ok(if piece.NoPiece? then subs else subs + [piece.text])
    else
      var c, tail := rest[0], rest[1..];
      if c == ')' then Scan(tail, op, piece.Grow(c), parity - 1, subs)
      else if c == '(' then Scan(tail, op, piece.Start(c), parity + 1, subs)
      else if parity != 0 then Scan(tail, op, piece.Grow(c), parity, subs)
      else if BelongsToName(c) || c == '!' then Scan(tail, op, piece.Start(c), parity, subs)
      else if piece.NoPiece? then Scan(tail, op, piece, parity, subs)
      else if c == op then Scan(tail, op, Piece(""), parity, subs + [piece.text])
      else if c != '&' && c != '|' then Thrown(UnknownOperator)
      else Scan(tail, op, piece.Grow(c), parity, subs)
  }

  function Split(formula: string, op: char): Outcome<seq<string>> {
    Scan(formula, op, NoPiece, 0, [])
  }

  ghost predicate AllShorter(subs: seq<string>, n: int) {
    forall i :: 0 <= i < |subs| ==> |subs[i]| < n
  }

  /** When the scan finds an operator, every part is shorter than the whole. */
  lemma {:induction false} ScanShortens(rest: string, op: char, piece: Piece, parity: int, subs: seq<string>, n: int)
    requires AllShorter(subs, n) && |piece.Text()| + |rest| <= n - if subs == [] then 0 else 1
    ensures var r := Scan(rest, op, piece, parity, subs); r.Ok? && |r.value| > 1 ==> AllShorter(r.value, n)
  {
    if rest != "" {
      var c, tail := rest[0], rest[1..];
      if c == ')' {
        ScanShortens(tail, op, piece.Grow(c), parity - 1, subs, n);
      } else if c == '(' {
        ScanShortens(tail, op, piece.Start(c), parity + 1, subs, n);
      } else if parity != 0 {
        ScanShortens(tail, op, piece.Grow(c), parity, subs, n);
      } else if BelongsToName(c) || c == '!' {
        ScanShortens(tail, op, piece.Start(c), parity, subs, n);
      } else if piece.NoPiece? {
        ScanShortens(tail, op, piece, parity, subs, n);
      } else if c == op {
        ScanShortens(tail, op, Piece(""), parity, subs + [piece.text], n);
      } else if c == '&' || c == '|' {
        ScanShortens(tail, op, piece.Grow(c), parity, subs, n);
      }
    }
  }

  /** singleParse, with its start position instead of the collected text. */
  method SingleParse(formula: string, op: char) returns (r: Outcome<seq<string>>)
    ensures r == Split(formula, op)
  {
    var start, parity, subs := -1, 0, [];
    for i := 0 to |formula|
      invariant -1 <= start <= i
      invariant Scan(formula[i..], op, if start == -1 then NoPiece else Piece(formula[start..i]), parity, subs) ==
          Split(formula, op)
    {
      var c := formula[i];
      assert formula[i..][1..] == formula[i + 1..];
      assert start != -1 ==> formula[start..i] + [c] == formula[start..i + 1];
      assert "" + [c] == formula[i..i + 1] && formula[i + 1..i + 1] == "";
      if c == ')' {
        parity := parity - 1;
      } else if c == '(' {
        parity := parity + 1;
        if start == -1 {
          start := i;
        }
      } else if parity == 0 {
        if start == -1 {
          if BelongsToName(c) || c == '!' {
            start := i;
          }
        } else if !(BelongsToName(c) || c == '!') {
          if op == c {
            subs := subs + [formula[start..i]];
            start := i + 1;
          } else if c != '&' && c != '|' {
            return Thrown(UnknownOperator);
          }
        }
      }
    }
    assert formula[|formula|..] == "" && (start != -1 ==> formula[start..|formula|] == formula[start..]);
    if start != -1 {
      subs := subs + [formula[start..]];
    }
    r := if parity != 0 then Thrown(ParenthesisParity) else Ok(subs);
  }

  // ----- Evaluation -----

  function Resolve(source: string, vals: Vals): Outcome<bool>
    decreases |source|, 1
  {
    ResolveRec(Without(source), vals)
  }

  function ResolveRec(source: string, vals: Vals): Outcome<bool>
    decreases |source|, 0
  {
    if source == "" then Thrown(EmptySubExpression)
    else
      var atOr := Split(source, '|');
      if atOr.Thrown? then Thrown(atOr.error)
      else
        var isAnd := |atOr.value| == 1;
        var split := if isAnd then Split(source, '&') else atOr;
        ScanShortens(source, '|', NoPiece, 0, [], |source|);
        ScanShortens(source, '&', NoPiece, 0, [], |source|);
        if split.Thrown? then Thrown(split.error)
        else if |split.value| == 0 then Thrown(NotAFormula)
        else if |split.value| == 1 then ResolveOne(source, vals)
        else ResolveAll(split.value, isAnd, vals, |source| - 1)
  }

  /** A formula without a binary operator at the top level. */
  function ResolveOne(source: string, vals: Vals): Outcome<bool>
    requires source != ""
    decreases |source| - 1, 2
  {
    if source[0] == '!' then
      var r := Resolve(source[1..], vals);
      if r.Ok? then Ok(!r.value) else r
    else if source[0] == '(' then
      Resolve(if |source| < 2 then "" else source[1..|source| - 1], vals)
    else if source == "1" then Ok(true)
    else if source == "0" then Ok(false)
    else if source !in vals then Thrown(VariableNotFound)
    else Ok(vals[source])
  }

  /** The first error of the parts, or their disjunction or conjunction. */
  function ResolveAll(subs: seq<string>, isAnd: bool, vals: Vals, bound: nat): Outcome<bool>
    requires AllShorter(subs, bound + 1)
    decreases bound, 2 + |subs|
  {
    if subs == [] then Ok(isAnd)
    else
      var first := Resolve(subs[0], vals);
      if first.Thrown? then first
      else
        var others := ResolveAll(subs[1..], isAnd, vals, bound);
        if others.Thrown? then others
        else Ok(if isAnd then first.value && others.value else first.value || others.value)
  }

  lemma SplitAtOr(source: string, parts: seq<string>, vals: Vals)
    requires source != "" && Split(source, '|') == Ok(parts) && |parts| > 1
    ensures AllShorter(parts, |source|) && ResolveRec(source, vals) == ResolveAll(parts, false, vals, |source| - 1)
  {
    ScanShortens(source, '|', NoPiece, 0, [], |source|);
  }

  lemma SplitAtAnd(source: string, whole: string, parts: seq<string>, vals: Vals)
    requires source != "" && Split(source, '|') == Ok([whole]) && Split(source, '&') == Ok(parts) && |parts| > 1
    ensures AllShorter(parts, |source|) && ResolveRec(source, vals) == ResolveAll(parts, true, vals, |source| - 1)
  {
    ScanShortens(source, '&', NoPiece, 0, [], |source|);
  }

  lemma SplitNowhere(source: string, whole: string, vals: Vals)
    requires source != "" && Split(source, '|') == Ok([whole]) && Split(source, '&') == Ok([whole])
    ensures ResolveRec(source, vals) == ResolveOne(source, vals)
  {
  }

  // ----- Well-formed formulas -----

  datatype Disj = Disj(first: Conj) | DisjMore(first: Conj, others: Disj)

  datatype Conj = Conj(first: Unary) | ConjMore(first: Unary, others: Conj)

  datatype Unary = Lit(value: bool) | Var(name: string) | Not(u: Unary) | Paren(d: Disj)

  function PrintDisj(d: Disj): string {
    if d.Disj? then PrintConj(d.first) else PrintConj(d.first) + "|" + PrintDisj(d.others)
  }

  function PrintConj(c: Conj): string {
    if c.Conj? then PrintUnary(c.first) else PrintUnary(c.first) + "&" + PrintConj(c.others)
  }

  function PrintUnary(u: Unary): string {
    match u
    case Lit(v) => if v then "1" else "0"
    case Var(name) => name
    case Not(v) => "!" + PrintUnary(v)
    case Paren(d) => "(" + PrintDisj(d) + ")"
  }

  predicate IsName(s: string) {
    s != "" && s != "0" && s != "1" && forall i :: 0 <= i < |s| ==> BelongsToName(s[i])
  }

  predicate DisjNamed(d: Disj) {
    ConjNamed(d.first) && (d.DisjMore? ==> DisjNamed(d.others))
  }

  predicate ConjNamed(c: Conj) {
    UnaryNamed(c.first) && (c.ConjMore? ==> ConjNamed(c.others))
  }

  /** All its variables are names. */
  predicate UnaryNamed(u: Unary) {
    match u
    case Lit(_) => true
    case Var(name) => IsName(name)
    case Not(v) => UnaryNamed(v)
    case Paren(d) => DisjNamed(d)
  }

  predicate DisjBound(d: Disj, vals: Vals) {
    ConjBound(d.first, vals) && (d.DisjMore? ==> DisjBound(d.others, vals))
  }

  predicate ConjBound(c: Conj, vals: Vals) {
    UnaryBound(c.first, vals) && (c.ConjMore? ==> ConjBound(c.others, vals))
  }

  /** All its variables have a value. */
  predicate UnaryBound(u: Unary, vals: Vals) {
    match u
    case Lit(_) => true
    case Var(name) => name in vals
    case Not(v) => UnaryBound(v, vals)
    case Paren(d) => DisjBound(d, vals)
  }

  predicate EvalDisj(d: Disj, vals: Vals)
    requires DisjBound(d, vals)
  {
    EvalConj(d.first, vals) || (d.DisjMore? && EvalDisj(d.others, vals))
  }

  predicate EvalConj(c: Conj, vals: Vals)
    requires ConjBound(c, vals)
  {
    EvalUnary(c.first, vals) && (c.ConjMore? ==> EvalConj(c.others, vals))
  }

  predicate EvalUnary(u: Unary, vals: Vals)
    requires UnaryBound(u, vals)
  {
    match u
    case Lit(v) => v
    case Var(name) => vals[name]
    case Not(v) => !EvalUnary(v, vals)
    case Paren(d) => EvalDisj(d, vals)
  }

  // ----- Scanning a printed formula -----

  /** Text that the scan passes over, adding it to the current piece. */
  ghost predicate Passes(w: string, rest: string, op: char, piece: Piece, parity: int, subs: seq<string>) {
    Scan(w + rest, op, piece, parity, subs) == Scan(rest, op, Piece(piece.Text() + w), parity, subs)
  }

  lemma PassOne(c: char, rest: string, op: char, piece: Piece, parity: int, subs: seq<string>)
    requires parity >= 0 && (c == '!' || BelongsToName(c) || c == '&' || c == '|')
    requires parity == 0 && (c == '&' || c == '|') ==> c != op
    requires c == '&' || c == '|' || parity > 0 ==> piece.Piece?
    ensures Passes([c], rest, op, piece, parity, subs)
  {
    assert ([c] + rest)[1..] == rest;
  }

  lemma PassBoth(w: string, v: string, rest: string, op: char, piece: Piece, parity: int, subs: seq<string>)
    requires Passes(w, v + rest, op, piece, parity, subs) && Passes(v, rest, op, Piece(piece.Text() + w), parity, subs)
    ensures Passes(w + v, rest, op, piece, parity, subs)
  {
    assert w + v + rest == w + (v + rest);
    assert piece.Text() + w + v == piece.Text() + (w + v);
  }

  lemma {:induction false} PassName(w: string, rest: string, op: char, piece: Piece, parity: int, subs: seq<string>)
    requires w != "" && (forall i :: 0 <= i < |w| ==> BelongsToName(w[i])) && parity >= 0
        && (parity > 0 ==> piece.Piece?)
    ensures Passes(w, rest, op, piece, parity, subs)
  {
    var tail := w[1..];
    PassOne(w[0], tail + rest, op, piece, parity, subs);
    assert w == [w[0]] + tail;
    if tail == "" {
      assert [w[0]] + (tail + rest) == w + rest && tail + rest == rest;
    } else {
      PassName(tail, rest, op, Piece(piece.Text() + [w[0]]), parity, subs);
      PassBoth([w[0]], tail, rest, op, piece, parity, subs);
    }
  }

  lemma {:induction false} PassUnary(u: Unary, rest: string, op: char, piece: Piece, parity: int,
      subs: seq<string>)
    requires UnaryNamed(u) && parity >= 0 && (parity > 0 ==> piece.Piece?)
    ensures Passes(PrintUnary(u), rest, op, piece, parity, subs)
    decreases u, 0
  {
    match u
    case Lit(_) => PassName(PrintUnary(u), rest, op, piece, parity, subs);
    case Var(name) => PassName(name, rest, op, piece, parity, subs);
    case Not(v) =>
      PassOne('!', PrintUnary(v) + rest, op, piece, parity, subs);
      PassUnary(v, rest, op, Piece(piece.Text() + "!"), parity, subs);
      PassBoth("!", PrintUnary(v), rest, op, piece, parity, subs);
    case Paren(d) =>
      var w := PrintDisj(d);
      var inside := Piece(piece.Text() + "(");
      PassDisj(d, ")" + rest, op, inside, parity + 1, subs);
      assert ("(" + w + ")" + rest)[1..] == w + (")" + rest);
      assert (")" + rest)[1..] == rest;
      assert inside.text + w + ")" == piece.Text() + ("(" + w + ")");
  }

  lemma {:induction false} PassConj(c: Conj, rest: string, op: char, piece: Piece, parity: int,
      subs: seq<string>)
    requires ConjNamed(c) && parity >= 0 && (parity > 0 ==> piece.Piece?) && (parity == 0 ==> op != '&')
    ensures Passes(PrintConj(c), rest, op, piece, parity, subs)
    decreases c, 1
  {
    if c.Conj? {
      PassUnary(c.first, rest, op, piece, parity, subs);
    } else {
      var w, v := PrintUnary(c.first), PrintConj(c.others);
      PassUnary(c.first, "&" + (v + rest), op, piece, parity, subs);
      var piece' := Piece(piece.Text() + w);
      PassOne('&', v + rest, op, piece', parity, subs);
      PassBoth(w, "&", v + rest, op, piece, parity, subs);
      PassConj(c.others, rest, op, Piece(piece.Text() + (w + "&")), parity, subs);
      PassBoth(w + "&", v, rest, op, piece, parity, subs);
    }
  }

  lemma {:induction false} PassDisj(d: Disj, rest: string, op: char, piece: Piece, parity: int,
      subs: seq<string>)
    requires DisjNamed(d) && parity > 0 && piece.Piece?
    ensures Passes(PrintDisj(d), rest, op, piece, parity, subs)
    decreases d, 2
  {
    if d.Disj? {
      PassConj(d.first, rest, op, piece, parity, subs);
    } else {
      var w, v := PrintConj(d.first), PrintDisj(d.others);
      PassConj(d.first, "|" + (v + rest), op, piece, parity, subs);
      var piece' := Piece(piece.Text() + w);
      PassOne('|', v + rest, op, piece', parity, subs);
      PassBoth(w, "|", v + rest, op, piece, parity, subs);
      PassDisj(d.others, rest, op, Piece(piece.Text() + (w + "|")), parity, subs);
      PassBoth(w + "|", v, rest, op, piece, parity, subs);
    }
  }

  function DisjParts(d: Disj): seq<string> {
    [PrintConj(d.first)] + if d.Disj? then [] else DisjParts(d.others)
  }

  function ConjParts(c: Conj): seq<string> {
    [PrintUnary(c.first)] + if c.Conj? then [] else ConjParts(c.others)
  }

  /** Nothing collected yet: at the start, or just after an operator. */
  predicate Empty(piece: Piece) {
    piece.Text() == ""
  }

  /** Splitting at | yields exactly the disjuncts. */
  lemma {:induction false} SplitDisj(d: Disj, piece: Piece, subs: seq<string>)
    requires DisjNamed(d) && Empty(piece)
    ensures Scan(PrintDisj(d), '|', piece, 0, subs) == Ok(subs + DisjParts(d))
  {
    var w := PrintConj(d.first);
    if d.Disj? {
      PassConj(d.first, "", '|', piece, 0, subs);
      assert DisjParts(d) == [w];
      assert w + "" == w && piece.Text() + w == w;
    } else {
      var v := PrintDisj(d.others);
      PassConj(d.first, "|" + v, '|', piece, 0, subs);
      assert PrintDisj(d) == w + ("|" + v) && ("|" + v)[1..] == v;
      assert piece.Text() + w == w;
      SplitDisj(d.others, Piece(""), subs + [w]);
      assert subs + [w] + DisjParts(d.others) == subs + DisjParts(d);
    }
  }

  /** Splitting a conjunction at & yields exactly the conjuncts. */
  lemma {:induction false} SplitConj(c: Conj, piece: Piece, subs: seq<string>)
    requires ConjNamed(c) && Empty(piece)
    ensures Scan(PrintConj(c), '&', piece, 0, subs) == Ok(subs + ConjParts(c))
  {
    var w := PrintUnary(c.first);
    if c.Conj? {
      PassUnary(c.first, "", '&', piece, 0, subs);
      assert ConjParts(c) == [w];
      assert w + "" == w && piece.Text() + w == w;
    } else {
      var v := PrintConj(c.others);
      PassUnary(c.first, "&" + v, '&', piece, 0, subs);
      assert PrintConj(c) == w + ("&" + v) && ("&" + v)[1..] == v;
      assert piece.Text() + w == w;
      SplitConj(c.others, Piece(""), subs + [w]);
      assert subs + [w] + ConjParts(c.others) == subs + ConjParts(c);
    }
  }

  lemma SplitsDisj(d: Disj)
    requires DisjNamed(d)
    ensures Split(PrintDisj(d), '|') == Ok(DisjParts(d))
  {
    SplitDisj(d, NoPiece, []);
    assert [] + DisjParts(d) == DisjParts(d);
  }

  lemma SplitsConj(c: Conj)
    requires ConjNamed(c)
    ensures Split(PrintConj(c), '|') == Ok([PrintConj(c)]) && Split(PrintConj(c), '&') == Ok(ConjParts(c))
  {
    SplitsDisj(Disj(c));
    assert DisjParts(Disj(c)) == [PrintConj(c)];
    SplitConj(c, NoPiece, []);
    assert [] + ConjParts(c) == ConjParts(c);
  }

  lemma SplitsUnary(u: Unary)
    requires UnaryNamed(u)
    ensures Split(PrintUnary(u), '|') == Ok([PrintUnary(u)]) && Split(PrintUnary(u), '&') == Ok([PrintUnary(u)])
  {
    SplitsConj(Conj(u));
    assert ConjParts(Conj(u)) == [PrintUnary(u)];
  }

  // ----- Printed formulas hold no white space -----

  lemma Associative(a: string, b: string, c: string)
    ensures a + (b + c) == a + b + c
  {
  }

  lemma {:induction false} WithoutJoin(a: string, b: string)
    ensures Without(a + b) == Without(a) + Without(b)
  {
    if a == "" {
      assert a + b == b;
    } else {
      WithoutJoin(a[1..], b);
      assert (a + b)[1..] == a[1..] + b;
      Associative(if IsSpace(a[0]) then "" else [a[0]], Without(a[1..]), Without(b));
    }
  }

  lemma WithoutThree(a: string, c: char, b: string)
    requires Without(a) == a && Without(b) == b && !IsSpace(c)
    ensures Without(a + [c] + b) == a + [c] + b
  {
    assert [c][1..] == "" && Without([c]) == [c];
    WithoutJoin(a, [c]);
    WithoutJoin(a + [c], b);
  }

  lemma {:induction false} WithoutName(s: string)
    requires forall i :: 0 <= i < |s| ==> BelongsToName(s[i])
    ensures Without(s) == s
  {
    if s != "" {
      WithoutName(s[1..]);
    }
  }

  lemma {:induction false} UnarySolid(u: Unary)
    requires UnaryNamed(u)
    ensures Without(PrintUnary(u)) == PrintUnary(u) && PrintUnary(u) != ""
    decreases u, 0
  {
    match u
    case Lit(_) => WithoutName(PrintUnary(u));
    case Var(name) => WithoutName(name);
    case Not(v) =>
      UnarySolid(v);
      WithoutJoin("!", PrintUnary(v));
    case Paren(d) =>
      DisjSolid(d);
      WithoutJoin("(", PrintDisj(d));
      WithoutJoin("(" + PrintDisj(d), ")");
  }

  lemma {:induction false} ConjSolid(c: Conj)
    requires ConjNamed(c)
    ensures Without(PrintConj(c)) == PrintConj(c) && PrintConj(c) != ""
    decreases c, 1
  {
    UnarySolid(c.first);
    if c.ConjMore? {
      ConjSolid(c.others);
      WithoutThree(PrintUnary(c.first), '&', PrintConj(c.others));
    }
  }

  lemma {:induction false} DisjSolid(d: Disj)
    requires DisjNamed(d)
    ensures Without(PrintDisj(d)) == PrintDisj(d) && PrintDisj(d) != ""
    decreases d, 2
  {
    ConjSolid(d.first);
    if d.DisjMore? {
      DisjSolid(d.others);
      WithoutThree(PrintConj(d.first), '|', PrintDisj(d.others));
    }
  }

  // ----- The evaluator computes the truth value -----

  /** What a formula has to resolve to. */
  function DisjMeaning(d: Disj, vals: Vals): Outcome<bool> {
    if DisjBound(d, vals) then Ok(EvalDisj(d, vals)) else Thrown(VariableNotFound)
  }

  function ConjMeaning(c: Conj, vals: Vals): Outcome<bool> {
    if ConjBound(c, vals) then Ok(EvalConj(c, vals)) else Thrown(VariableNotFound)
  }

  function UnaryMeaning(u: Unary, vals: Vals): Outcome<bool> {
    if UnaryBound(u, vals) then Ok(EvalUnary(u, vals)) else Thrown(VariableNotFound)
  }

  lemma {:induction false} ResolvesUnary(u: Unary, vals: Vals)
    requires UnaryNamed(u)
    ensures ResolveRec(PrintUnary(u), vals) == UnaryMeaning(u, vals)
    decreases u, 0
  {
    var s := PrintUnary(u);
    UnarySolid(u);
    SplitsUnary(u);
    SplitNowhere(s, s, vals);
    match u
    case Lit(_) =>
    case Var(name) => assert BelongsToName(name[0]);
    case Not(v) =>
      UnarySolid(v);
      ResolvesUnary(v, vals);
      assert s[1..] == PrintUnary(v);
      assert Resolve(s[1..], vals) == UnaryMeaning(v, vals);
    case Paren(d) =>
      DisjSolid(d);
      ResolvesDisj(d, vals);
      assert s[1..|s| - 1] == PrintDisj(d);
      assert Resolve(s[1..|s| - 1], vals) == DisjMeaning(d, vals);
  }

  lemma {:induction false} ConjAll(c: Conj, vals: Vals, bound: nat)
    requires ConjNamed(c) && AllShorter(ConjParts(c), bound + 1)
    ensures ResolveAll(ConjParts(c), true, vals, bound) == ConjMeaning(c, vals)
    decreases c, 1
  {
    var parts := ConjParts(c);
    UnarySolid(c.first);
    ResolvesUnary(c.first, vals);
    if c.ConjMore? {
      assert parts[1..] == ConjParts(c.others);
      ConjAll(c.others, vals, bound);
    } else {
      assert parts[1..] == [];
    }
  }

  lemma {:induction false} ResolvesConj(c: Conj, vals: Vals)
    requires ConjNamed(c)
    ensures ResolveRec(PrintConj(c), vals) == ConjMeaning(c, vals)
    decreases c, 2
  {
    var s := PrintConj(c);
    ConjSolid(c);
    SplitsConj(c);
    if c.Conj? {
      ResolvesUnary(c.first, vals);
    } else {
      SplitAtAnd(s, s, ConjParts(c), vals);
      ConjAll(c, vals, |s| - 1);
    }
  }

  lemma {:induction false} DisjAll(d: Disj, vals: Vals, bound: nat)
    requires DisjNamed(d) && AllShorter(DisjParts(d), bound + 1)
    ensures ResolveAll(DisjParts(d), false, vals, bound) == DisjMeaning(d, vals)
    decreases d, 3
  {
    var parts := DisjParts(d);
    ConjSolid(d.first);
    ResolvesConj(d.first, vals);
    if d.DisjMore? {
      assert parts[1..] == DisjParts(d.others);
      DisjAll(d.others, vals, bound);
    } else {
      assert parts[1..] == [];
    }
  }

  lemma {:induction false} ResolvesDisj(d: Disj, vals: Vals)
    requires DisjNamed(d)
    ensures ResolveRec(PrintDisj(d), vals) == DisjMeaning(d, vals)
    decreases d, 4
  {
    var s := PrintDisj(d);
    DisjSolid(d);
    SplitsDisj(d);
    if d.Disj? {
      ResolvesConj(d.first, vals);
    } else {
      SplitAtOr(s, DisjParts(d), vals);
      DisjAll(d, vals, |s| - 1);
    }
  }

  /** Any text that is a formula once white space is dropped gets its truth value if all its variables have a
      value, and is refused otherwise, wherever the unknown variable stands. */
  lemma ResolveCorrect(source: string, d: Disj, vals: Vals)
    requires DisjNamed(d) && Without(source) == PrintDisj(d)
    ensures Resolve(source, vals) == if DisjBound(d, vals) then Ok(EvalDisj(d, vals)) else Thrown(VariableNotFound)
  {
    ResolvesDisj(d, vals);
  }

  // ----- Text that is not a formula -----

  /** A character that can neither start a subexpression nor be skipped as white space. */
  predicate Stray(c: char) {
    !IsSpace(c) && !BelongsToName(c) && c != '!' && c != '(' && c != ')'
  }

  predicate AllStray(w: string) {
    forall i :: 0 <= i < |w| ==> Stray(w[i])
  }

  lemma {:induction false} StraySkipped(w: string, s: string, op: char)
    requires AllStray(w)
    ensures Split(w + s, op) == Split(s, op)
  {
    if w == "" {
      assert w + s == s;
    } else {
      StraySkipped(w[1..], s, op);
      assert (w + s)[0] == w[0] && (w + s)[1..] == w[1..] + s;
    }
  }

  lemma {:induction false} WithoutStray(w: string)
    requires AllStray(w)
    ensures Without(w) == w
  {
    if w != "" {
      WithoutStray(w[1..]);
      assert w == [w[0]] + w[1..];
    }
  }

  lemma StrayConj(w: string, conj: Conj, vals: Vals)
    requires w != "" && AllStray(w) && ConjNamed(conj) && forall name :: name in vals ==> IsName(name)
    ensures ResolveRec(w + PrintConj(conj), vals) == if conj.ConjMore? then ConjMeaning(conj, vals)
        else Thrown(VariableNotFound)
  {
    var s := PrintConj(conj);
    var source := w + s;
    StraySkipped(w, s, '|');
    StraySkipped(w, s, '&');
    SplitsConj(conj);
    if conj.ConjMore? {
      SplitAtAnd(source, s, ConjParts(conj), vals);
      ConjAll(conj, vals, |source| - 1);
    } else {
      ConjSolid(conj);
      SplitsUnary(conj.first);
      SplitNowhere(source, s, vals);
      assert source[0] == w[0] && !BelongsToName(source[0]);
    }
  }

  /** Stray characters in front go unnoticed if and only if a top-level operator follows. */
  lemma StrayPrefix(w: string, d: Disj, vals: Vals)
    requires w != "" && AllStray(w) && DisjNamed(d) && forall name :: name in vals ==> IsName(name)
    ensures Resolve(w + PrintDisj(d), vals)
         == if d.DisjMore? || d.first.ConjMore? then DisjMeaning(d, vals) else Thrown(VariableNotFound)
  {
    var s := PrintDisj(d);
    var source := w + s;
    DisjSolid(d);
    WithoutStray(w);
    WithoutJoin(w, s);
    if d.DisjMore? {
      StraySkipped(w, s, '|');
      SplitsDisj(d);
      SplitAtOr(source, DisjParts(d), vals);
      DisjAll(d, vals, |source| - 1);
    } else {
      StrayConj(w, d.first, vals);
    }
  }

  function Count(s: string, c: char): nat {
    if s == "" then 0 else (if s[0] == c then 1 else 0) + Count(s[1..], c)
  }

  lemma {:induction false} ScanBalances(rest: string, op: char, piece: Piece, parity: int, subs: seq<string>)
    requires parity + Count(rest, '(') != Count(rest, ')')
    ensures Scan(rest, op, piece, parity, subs).Thrown?
    decreases |rest|
  {
    if rest != "" {
      var c, tail := rest[0], rest[1..];
      if c == ')' {
        ScanBalances(tail, op, piece.Grow(c), parity - 1, subs);
      } else if c == '(' {
        ScanBalances(tail, op, piece.Start(c), parity + 1, subs);
      } else if parity != 0 {
        ScanBalances(tail, op, piece.Grow(c), parity, subs);
      } else if BelongsToName(c) || c == '!' {
        ScanBalances(tail, op, piece.Start(c), parity, subs);
      } else if piece.NoPiece? {
        ScanBalances(tail, op, piece, parity, subs);
      } else if c == op {
        ScanBalances(tail, op, Piece(""), parity, subs + [piece.text]);
      } else if c == '&' || c == '|' {
        ScanBalances(tail, op, piece.Grow(c), parity, subs);
      }
    }
  }

  /** A text with more parentheses of one kind than of the other is refused. */
  lemma Unbalanced(source: string, vals: Vals)
    requires Count(Without(source), '(') != Count(Without(source), ')')
    ensures Resolve(source, vals).Thrown?
  {
    ScanBalances(Without(source), '|', NoPiece, 0, []);
  }

  /** A formula followed by a character that is neither white space nor an operator is refused, whatever comes next. */
  lemma UnknownOperatorRefused(conj: Conj, c: char, rest: string, vals: Vals)
    requires ConjNamed(conj) && Stray(c) && c != '&' && c != '|'
    ensures ResolveRec(PrintConj(conj) + ([c] + rest), vals) == Thrown(UnknownOperator)
  {
    ConjSolid(conj);
    PassConj(conj, [c] + rest, '|', NoPiece, 0, []);
    assert ([c] + rest)[0] == c;
  }

  // ----- Formulas and how they are written -----

  datatype Formula = True | False | Atom(name: string) | Negation(f: Formula) | Both(f: Formula,
      g: Formula) | Either(f: Formula, g: Formula)

  /** All its atoms are names. */
  predicate Named(f: Formula) {
    match f
    case True => true
    case False => true
    case Atom(name) => IsName(name)
    case Negation(g) => Named(g)
    case Both(g, h) => Named(g) && Named(h)
    case Either(g, h) => Named(g) && Named(h)
  }

  /** All its atoms have a value. */
  predicate Bound(f: Formula, vals: Vals) {
    match f
    case True => true
    case False => true
    case Atom(name) => name in vals
    case Negation(g) => Bound(g, vals)
    case Both(g, h) => Bound(g, vals) && Bound(h, vals)
    case Either(g, h) => Bound(g, vals) && Bound(h, vals)
  }

  predicate Truth(f: Formula, vals: Vals)
    requires Bound(f, vals)
  {
    match f
    case True => true
    case False => false
    case Atom(name) => vals[name]
    case Negation(g) => !Truth(g, vals)
    case Both(g, h) => Truth(g, vals) && Truth(h, vals)
    case Either(g, h) => Truth(g, vals) || Truth(h, vals)
  }

  function Meaning(f: Formula, vals: Vals): Outcome<bool> {
    if Bound(f, vals) then Ok(Truth(f, vals)) else Thrown(VariableNotFound)
  }

  /** Every binary operation in parentheses. */
  function Full(f: Formula): Unary {
    match f
    case True => Lit(true)
    case False => Lit(false)
    case Atom(name) => Var(name)
    case Negation(g) => Not(Full(g))
    case Both(g, h) => Paren(Disj(ConjMore(Full(g), Conj(Full(h)))))
    case Either(g, h) => Paren(DisjMore(Conj(Full(g)), Disj(Conj(Full(h)))))
  }

  /** No more parentheses than needed, & binding tighter than |. */
  function Tight(f: Formula): Disj
    decreases f, 2
  {
    if f.Either? then JoinDisj(Tight(f.f), Tight(f.g)) else Disj(TightConj(f))
  }

  function TightConj(f: Formula): Conj
    decreases f, 1
  {
    if f.Both? then JoinConj(TightConj(f.f), TightConj(f.g)) else Conj(TightUnary(f))
  }

  function TightUnary(f: Formula): Unary
    decreases f, 0
  {
    match f
    case True => Lit(true)
    case False => Lit(false)
    case Atom(name) => Var(name)
    case Negation(g) => Not(TightUnary(g))
    case Both(g, h) => Paren(Disj(JoinConj(TightConj(g), TightConj(h))))
    case Either(g, h) => Paren(JoinDisj(Tight(g), Tight(h)))
  }

  function JoinDisj(a: Disj, b: Disj): Disj {
    DisjMore(a.first, if a.Disj? then b else JoinDisj(a.others, b))
  }

  function JoinConj(a: Conj, b: Conj): Conj {
    ConjMore(a.first, if a.Conj? then b else JoinConj(a.others, b))
  }

  lemma {:induction false} JoinDisjMeans(a: Disj, b: Disj, vals: Vals)
    ensures DisjNamed(JoinDisj(a, b)) <==> DisjNamed(a) && DisjNamed(b)
    ensures DisjBound(JoinDisj(a, b), vals) <==> DisjBound(a, vals) && DisjBound(b, vals)
    ensures DisjBound(a, vals) && DisjBound(b, vals) ==>
      EvalDisj(JoinDisj(a, b), vals) == (EvalDisj(a, vals) || EvalDisj(b, vals))
  {
    if a.DisjMore? {
      JoinDisjMeans(a.others, b, vals);
    }
  }

  lemma {:induction false} JoinConjMeans(a: Conj, b: Conj, vals: Vals)
    ensures ConjNamed(JoinConj(a, b)) <==> ConjNamed(a) && ConjNamed(b)
    ensures ConjBound(JoinConj(a, b), vals) <==> ConjBound(a, vals) && ConjBound(b, vals)
    ensures ConjBound(a, vals) && ConjBound(b, vals) ==>
      EvalConj(JoinConj(a, b), vals) == (EvalConj(a, vals) && EvalConj(b, vals))
  {
    if a.ConjMore? {
      JoinConjMeans(a.others, b, vals);
    }
  }

  lemma {:induction false} FullMeans(f: Formula, vals: Vals)
    ensures UnaryNamed(Full(f)) <==> Named(f)
    ensures UnaryMeaning(Full(f), vals) == Meaning(f, vals)
  {
    match f
    case True =>
    case False =>
    case Atom(_) =>
    case Negation(g) => FullMeans(g, vals);
    case Both(g, h) =>
      FullMeans(g, vals);
      FullMeans(h, vals);
      var c := ConjMore(Full(g), Conj(Full(h)));
      assert (ConjNamed(Conj(Full(h))) <==> Named(h)) && (ConjNamed(c) <==> Named(f));
      assert ConjMeaning(Conj(Full(h)), vals) == Meaning(h, vals) && ConjMeaning(c, vals) == Meaning(f, vals);
      assert DisjMeaning(Disj(c), vals) == Meaning(f, vals);
    case Either(g, h) =>
      FullMeans(g, vals);
      FullMeans(h, vals);
      var a, b := Conj(Full(g)), Disj(Conj(Full(h)));
      assert (ConjNamed(a) <==> Named(g)) && (ConjNamed(b.first) <==> Named(h)) && (DisjNamed(b) <==> Named(h));
      assert ConjMeaning(a, vals) == Meaning(g, vals) && ConjMeaning(b.first, vals) == Meaning(h, vals);
      assert DisjMeaning(b, vals) == Meaning(h, vals) && DisjMeaning(DisjMore(a, b), vals) == Meaning(f, vals);
  }

  lemma {:induction false} TightMeans(f: Formula, vals: Vals)
    ensures DisjNamed(Tight(f)) <==> Named(f)
    ensures DisjMeaning(Tight(f), vals) == Meaning(f, vals)
    decreases f, 2
  {
    if f.Either? {
      TightMeans(f.f, vals);
      TightMeans(f.g, vals);
      JoinDisjMeans(Tight(f.f), Tight(f.g), vals);
    } else {
      TightConjMeans(f, vals);
    }
  }

  lemma {:induction false} TightConjMeans(f: Formula, vals: Vals)
    ensures ConjNamed(TightConj(f)) <==> Named(f)
    ensures ConjMeaning(TightConj(f), vals) == Meaning(f, vals)
    decreases f, 1
  {
    if f.Both? {
      TightConjMeans(f.f, vals);
      TightConjMeans(f.g, vals);
      JoinConjMeans(TightConj(f.f), TightConj(f.g), vals);
    } else {
      TightUnaryMeans(f, vals);
    }
  }

  lemma {:induction false} TightUnaryMeans(f: Formula, vals: Vals)
    ensures UnaryNamed(TightUnary(f)) <==> Named(f)
    ensures UnaryMeaning(TightUnary(f), vals) == Meaning(f, vals)
    decreases f, 0
  {
    match f
    case True =>
    case False =>
    case Atom(_) =>
    case Negation(g) => TightUnaryMeans(g, vals);
    case Both(g, h) =>
      TightConjMeans(g, vals);
      TightConjMeans(h, vals);
      JoinConjMeans(TightConj(g), TightConj(h), vals);
      var c := JoinConj(TightConj(g), TightConj(h));
      assert DisjMeaning(Disj(c), vals) == ConjMeaning(c, vals) && (DisjNamed(Disj(c)) <==> ConjNamed(c));
    case Either(g, h) =>
      TightMeans(g, vals);
      TightMeans(h, vals);
      JoinDisjMeans(Tight(g), Tight(h), vals);
  }

  /** Every formula, written out in full or with as few parentheses as possible and with any white space,
      resolves to its truth value if all its names have a value, and is refused otherwise. */
  lemma ResolveFormula(f: Formula, source: string, vals: Vals)
    requires Named(f) && (Without(source) == PrintUnary(Full(f)) || Without(source) == PrintDisj(Tight(f)))
    ensures Resolve(source, vals) == if Bound(f, vals) then Ok(Truth(f, vals)) else Thrown(VariableNotFound)
  {
    if Without(source) == PrintUnary(Full(f)) {
      FullMeans(f, vals);
      ResolvesUnary(Full(f), vals);
    } else {
      TightMeans(f, vals);
      ResolvesDisj(Tight(f), vals);
    }
  }

  // ----- The code itself -----

  method ResolveSource(source: string, vals: Vals) returns (r: Outcome<bool>)
    ensures r == Resolve(source, vals)
    decreases |source|, 1
  {
    var text := RemoveWhitespaces(source);
    r := ResolveText(text, vals);
  }

  method ResolveText(source: string, vals: Vals) returns (r: Outcome<bool>)
    ensures r == ResolveRec(source, vals)
    decreases |source|, 0
  {
    if source == "" {
      return Thrown(EmptySubExpression);
    }
    var op := '|';
    var split := SingleParse(source, op);
    if split.Ok? && |split.value| == 1 {
      op := '&';
      split := SingleParse(source, op);
    }
    if split.Thrown? {
      return Thrown(split.error);
    }
    var subs := split.value;
    if |subs| == 0 {
      return Thrown(NotAFormula);
    }
    if |subs| == 1 {
      assert ResolveRec(source, vals) == ResolveOne(source, vals);
      if source[0] == '!' {
        r := ResolveSource(source[1..], vals);
        if r.Ok? {
          r := Ok(!r.value);
        }
      } else if source[0] == '(' {
        r := ResolveSource(if |source| < 2 then "" else source[1..|source| - 1], vals);
      } else if source == "1" {
        r := Ok(true);
      } else if source == "0" {
        r := Ok(false);
      } else if source !in vals {
        r := Thrown(VariableNotFound);
      } else {
        r := Ok(vals[source]);
      }
      return;
    }
    ScanShortens(source, op, NoPiece, 0, [], |source|);
    r := Combine(subs, op == '&', vals, |source| - 1);
  }

  function With(isAnd: bool, result: bool, others: Outcome<bool>): Outcome<bool> {
    if others.Thrown? then others else Ok(if isAnd then result && others.value else result || others.value)
  }

  /** The loop over the subexpressions: all are resolved, and the first error wins. */
  method Combine(subs: seq<string>, isAnd: bool, vals: Vals, ghost bound: nat) returns (r: Outcome<bool>)
    requires AllShorter(subs, bound + 1)
    ensures r == ResolveAll(subs, isAnd, vals, bound)
    decreases bound, 2
  {
    var result := isAnd;
    for i := 0 to |subs|
      invariant ResolveAll(subs, isAnd, vals, bound) == With(isAnd, result, ResolveAll(subs[i..], isAnd, vals, bound))
    {
      var next := ResolveSource(subs[i], vals);
      assert subs[i..][1..] == subs[i + 1..];
      if next.Thrown? {
        return next;
      }
      result := if isAnd then result && next.value else result || next.value;
    }
    r := Ok(result);
  }
}
