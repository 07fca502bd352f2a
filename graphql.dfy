/** bs_graphql_cli.py: the helpers around the GraphQL calls. The display
    rendering of a query with its variables substituted, the request
    payload, the pagination loop over monitorings (the HTTP call replaced
    by the list of answers the server gives, in order), the normalisation
    of a client number and the choice of query for a field. */
module BsGraphql {
  import opened Wire
  import opened Text

  // ------------------------------------------------------------ variables

  /** The values the script puts in GraphQL variables: strings, integers
      and None. */
  datatype Value = VStr(s: string) | VInt(i: int) | VNone

  /** A variables dict in insertion order; an absent dict (None) behaves
      as the empty one everywhere the script tests it. */
  type Variables = seq<(string, Value)>

  /** `str(n)` for any integer. */
  function IntText(n: int): (r: string)
    ensures n >= 0 ==> r == Decimal(n)
    ensures n < 0 ==> r == "-" + Decimal(-n)
  {
    if n >= 0 then Decimal(n) else "-" + Decimal(-n)
  }

  /** How a value is displayed: strings in double quotes, anything else as
      `str(v)`. */
  function Show(v: Value): (r: string)
    ensures r != [] && (r[0] == '"' <==> v.VStr?)
  {
    match v
    case VStr(s) => "\"" + s + "\""
    case VInt(i) => IntText(i)
    case VNone => "None"
  }

  /** The text shown for a value gives the value back: a string sits
      between the quotes, and an integer's digits denote its magnitude
      after the sign. */
  lemma ShowRecoversValue(v: Value)
    ensures v.VStr? ==> |Show(v)| == |v.s| + 2 && Show(v)[1..|Show(v)| - 1] == v.s
    ensures v.VInt? && v.i >= 0 ==> AllDigits(Show(v)) && DigitsValue(Show(v)) == v.i
    ensures v.VInt? && v.i < 0 ==>
      Show(v)[0] == '-' && AllDigits(Show(v)[1..]) && DigitsValue(Show(v)[1..]) == -v.i
  {
    if v.VStr? {
      assert Show(v)[1..|Show(v)| - 1] == v.s;
    }
    if v.VInt? && v.i < 0 {
      assert Show(v)[1..] == Decimal(-v.i);
    }
  }

  // ----------------------------------------------------------- str.replace

  /** `s.replace(pat, rep)` for a non-empty `pat`: every occurrence, found
      left to right without overlap, is replaced. */
  function ReplaceAll(s: string, pat: string, rep: string): (r: string)
    requires pat != []
    ensures |rep| == |pat| ==> |r| == |s|
    decreases |s|
  {
    if |s| < |pat| then s
    else if pat <= s then rep + ReplaceAll(s[|pat|..], pat, rep)
    else [s[0]] + ReplaceAll(s[1..], pat, rep)
  }

  /** Text that does not contain the pattern is left as it is. */
  lemma {:induction false} ReplaceAbsent(s: string, pat: string, rep: string)
    requires pat != [] && !Contains(s, pat)
    ensures ReplaceAll(s, pat, rep) == s
    decreases |s|
  {
    if |s| >= |pat| {
      assert !(pat <= s);
      ReplaceAbsent(s[1..], pat, rep);
      assert [s[0]] + s[1..] == s;
    }
  }

  /** Replacing the pattern by itself changes nothing. */
  lemma {:induction false} ReplaceBySelf(s: string, pat: string)
    requires pat != []
    ensures ReplaceAll(s, pat, pat) == s
    decreases |s|
  {
    if |s| >= |pat| {
      if pat <= s {
        ReplaceBySelf(s[|pat|..], pat);
        assert pat + s[|pat|..] == s;
      } else {
        ReplaceBySelf(s[1..], pat);
        assert [s[0]] + s[1..] == s;
      }
    }
  }

  /** Text in which no `$` occurs. */
  predicate NoDollar(s: string)
  {
    forall i :: 0 <= i < |s| ==> s[i] != '$'
  }

  /** Text without a `$` holds no `$name` placeholder. */
  lemma {:induction false} NoDollarNoPlaceholder(s: string, k: string)
    requires NoDollar(s)
    ensures !Contains(s, "$" + k)
    decreases |s|
  {
    assert ("$" + k)[0] == '$';
    if s != [] {
      NoDollarNoPlaceholder(s[1..], k);
    }
  }

  /** Text without a `$` in front of a `$...` pattern is passed over
      unchanged: the scan only ever matches where a `$` stands. */
  lemma {:induction false} ReplaceSkips(a: string, s: string, pat: string, rep: string)
    requires pat != [] && pat[0] == '$' && NoDollar(a)
    ensures ReplaceAll(a + s, pat, rep) == a + ReplaceAll(s, pat, rep)
    decreases |a|
  {
    if a != [] {
      var t := a + s;
      if |t| >= |pat| {
        assert t[0] == a[0] != '$';
        assert !(pat <= t);
        assert t[1..] == a[1..] + s;
        assert ReplaceAll(t, pat, rep) == [a[0]] + ReplaceAll(a[1..] + s, pat, rep);
        ReplaceSkips(a[1..], s, pat, rep);
        assert [a[0]] + (a[1..] + ReplaceAll(s, pat, rep)) == a + ReplaceAll(s, pat, rep);
      } else {
        assert ReplaceAll(t, pat, rep) == t;
        assert ReplaceAll(s, pat, rep) == s;
      }
    } else {
      assert a + s == s;
    }
  }

  /** The first occurrence of a `$...` pattern, behind text without `$`,
      is replaced and the scan goes on after it. */
  lemma {:induction false} ReplaceOccurrence(a: string, pat: string, b: string, rep: string)
    requires pat != [] && pat[0] == '$' && NoDollar(a)
    ensures ReplaceAll(a + pat + b, pat, rep) == a + rep + ReplaceAll(b, pat, rep)
  {
    ReplaceSkips(a, pat + b, pat, rep);
    assert (pat + b)[|pat|..] == b;
    assert a + pat + b == a + (pat + b);
  }

  // ------------------------------------------------------------- rendering

    /** Every value is shown in as many characters as its placeholder,
      `$` included, takes. */
  predicate SameWidths(vars: Variables)
  {
    vars == [] || (SameWidths(vars[..|vars| - 1]) && |Show(vars[|vars| - 1].1)| == 1 + |vars[|vars| - 1].0|)
  }

/** The query with each variable's `$name` replaced, the variables taken
      in order: the earlier ones' replacements are done first. */
  function Rendered(query: string, vars: Variables): (r: string)
    ensures SameWidths(vars) ==> |r| == |query|
  {
    if vars == [] then query
    else
      var (k, v) := vars[|vars| - 1];
      ReplaceAll(Rendered(query, vars[..|vars| - 1]), "$" + k, Show(v))
  }

  /** A query without `$` is shown unchanged whatever the variables. */
  lemma {:induction false} RenderedWithoutPlaceholders(query: string, vars: Variables)
    requires NoDollar(query)
    ensures Rendered(query, vars) == query
  {
    if vars != [] {
      var (k, v) := vars[|vars| - 1];
      RenderedWithoutPlaceholders(query, vars[..|vars| - 1]);
      NoDollarNoPlaceholder(query, k);
      ReplaceAbsent(query, "$" + k, Show(v));
    }
  }

  /** A character that may continue a GraphQL variable name. */
  predicate IsNameChar(c: char)
  {
    'a' <= c <= 'z' || 'A' <= c <= 'Z' || '0' <= c <= '9' || c == '_'
  }

  predicate IsName(s: string)
  {
    forall i :: 0 <= i < |s| ==> IsNameChar(s[i])
  }

  /** A query split at its placeholders: `pieces[0] + holes[0] + pieces[1]
      + ... + holes[n-1] + pieces[n]`. */
  function Interleave(pieces: seq<string>, holes: seq<string>): string
    requires |pieces| == |holes| + 1
    decreases |holes|
  {
    if holes == [] then pieces[0]
    else pieces[0] + holes[0] + Interleave(pieces[1..], holes[1..])
  }

  /** Each piece after a placeholder ends its name: it starts with a
      character no name holds, or it is the end of the query. */
  predicate Delimited(pieces: seq<string>)
  {
    forall m :: 1 <= m < |pieces| ==>
      (pieces[m] == [] ==> m == |pieces| - 1) &&
      (pieces[m] != [] ==> !IsNameChar(pieces[m][0]))
  }

  /** A hole of the text that the pattern `$k` cannot match inside unless it
      is exactly `$k`: either it holds no `$` at all, or it is a placeholder
      `$name` whose name does not begin with `k` unless it is `k`. */
  predicate Clear(hole: string, k: string)
  {
    NoDollar(hole) ||
    (|hole| > 0 && hole[0] == '$' && IsName(hole[1..]) &&
     (k <= hole[1..] ==> k == hole[1..]))
  }

  /** The holes after one `replace`: every hole that is the pattern becomes
      the replacement. */
  function Subst(holes: seq<string>, pat: string, rep: string): (r: seq<string>)
    ensures |r| == |holes|
  {
    seq(|holes|, m requires 0 <= m < |holes| => if holes[m] == pat then rep else holes[m])
  }

  /** `$k` does not match at a placeholder `$n` whose name does not begin
      with `k`, when a character no name holds, or nothing, follows it. */
  lemma NoMatchAtPlaceholder(n: string, rest: string, k: string)
    requires IsName(k) && !(k <= n)
    requires rest == [] || !IsNameChar(rest[0])
    ensures !("$" + k <= "$" + n + rest)
  {
    var pat := "$" + k;
    var t := "$" + n + rest;
    if |t| >= |pat| {
      if |k| <= |n| {
        assert k != n[..|k|];
        var i :| 0 <= i < |k| && k[i] != n[i];
        assert pat[i + 1] != t[i + 1];
      } else {
        assert pat[|n| + 1] == k[|n|];
        assert t[|n| + 1] == rest[0];
      }
    }
  }

  /** `replace` passes over a placeholder where the pattern does not
      match. */
  lemma ReplaceOtherPlaceholder(n: string, rest: string, k: string, rep: string)
    requires IsName(n) && !("$" + k <= "$" + n + rest)
    ensures ReplaceAll("$" + n + rest, "$" + k, rep) == "$" + n + ReplaceAll(rest, "$" + k, rep)
  {
    var pat := "$" + k;
    var t := "$" + n + rest;
    assert pat[0] == '$';
    if |t| >= |pat| {
      assert ReplaceAll(t, pat, rep) == [t[0]] + ReplaceAll(t[1..], pat, rep);
      assert t[1..] == n + rest;
      assert NoDollar(n);
      ReplaceSkips(n, rest, pat, rep);
      assert [t[0]] + (n + ReplaceAll(rest, pat, rep)) == "$" + n + ReplaceAll(rest, pat, rep);
    } else {
      assert ReplaceAll(t, pat, rep) == t;
      assert ReplaceAll(rest, pat, rep) == rest;
    }
  }

  /** One hole followed by the rest of the text: `replace` turns the hole
      into the replacement exactly when it is the pattern. */
  lemma ReplaceHole(hole: string, rest: string, k: string, rep: string)
    requires IsName(k) && Clear(hole, k)
    requires rest == [] || !IsNameChar(rest[0])
    ensures ReplaceAll(hole + rest, "$" + k, rep) ==
      (if hole == "$" + k then rep else hole) + ReplaceAll(rest, "$" + k, rep)
  {
    var pat := "$" + k;
    assert |pat| > 0 && pat[0] == '$';
    if NoDollar(hole) {
      assert hole != pat;
      ReplaceSkips(hole, rest, pat, rep);
    } else if hole == pat {
      assert (pat + rest)[|pat|..] == rest;
      assert pat <= pat + rest;
    } else {
      var n := hole[1..];
      assert hole == "$" + n;
      assert k != n;
      NoMatchAtPlaceholder(n, rest, k);
      ReplaceOtherPlaceholder(n, rest, k, rep);
    }
  }

  /** What holds of a split text holds of the part after its first hole. */
  lemma InterleaveTail(pieces: seq<string>, holes: seq<string>, k: string)
    requires |pieces| == |holes| + 1 && holes != []
    requires forall m :: 0 <= m < |pieces| ==> NoDollar(pieces[m])
    requires Delimited(pieces)
    requires forall m :: 0 <= m < |holes| ==> Clear(holes[m], k)
    ensures forall m :: 0 <= m < |pieces[1..]| ==> NoDollar(pieces[1..][m])
    ensures Delimited(pieces[1..])
    ensures forall m :: 0 <= m < |holes[1..]| ==> Clear(holes[1..][m], k)
    ensures var rest := Interleave(pieces[1..], holes[1..]);
      rest == [] || !IsNameChar(rest[0])
  {
    forall m | 1 <= m < |pieces[1..]|
      ensures pieces[1..][m] == pieces[m + 1]
    {
    }
    assert pieces[1..][0] == pieces[1];
    if pieces[1] == [] {
      assert |pieces| == 2;
    }
  }

  /** Substituting in a list of holes substitutes in its first hole and in
      the rest. */
  lemma SubstCons(holes: seq<string>, pat: string, rep: string)
    requires holes != []
    ensures Subst(holes, pat, rep)[0] == (if holes[0] == pat then rep else holes[0])
    ensures Subst(holes, pat, rep)[1..] == Subst(holes[1..], pat, rep)
  {
  }

  /** `replace` over a piece, a hole and the rest of the text: the piece
      stays, the hole becomes the replacement exactly when it is the
      pattern, and the rest is replaced on its own. */
  lemma ReplaceStep(piece: string, hole: string, rest: string, k: string, rep: string)
    requires IsName(k) && NoDollar(piece) && Clear(hole, k)
    requires rest == [] || !IsNameChar(rest[0])
    ensures ReplaceAll(piece + hole + rest, "$" + k, rep) ==
      piece + (if hole == "$" + k then rep else hole) + ReplaceAll(rest, "$" + k, rep)
  {
    var pat := "$" + k;
    assert pat[0] == '$';
    assert piece + hole + rest == piece + (hole + rest);
    ReplaceSkips(piece, hole + rest, pat, rep);
    ReplaceHole(hole, rest, k, rep);
  }

  /** One `replace` of `$k` over a text split at its placeholders replaces
      exactly the holes that are `$k` and leaves the pieces as they were. */
  lemma {:induction false} ReplaceInterleave(pieces: seq<string>, holes: seq<string>, k: string, rep: string)
    requires |pieces| == |holes| + 1
    requires IsName(k)
    requires forall m :: 0 <= m < |pieces| ==> NoDollar(pieces[m])
    requires Delimited(pieces)
    requires forall m :: 0 <= m < |holes| ==> Clear(holes[m], k)
    ensures ReplaceAll(Interleave(pieces, holes), "$" + k, rep) ==
      Interleave(pieces, Subst(holes, "$" + k, rep))
    decreases |holes|
  {
    var pat := "$" + k;
    if holes == [] {
      NoDollarNoPlaceholder(pieces[0], k);
      ReplaceAbsent(pieces[0], pat, rep);
    } else {
      var r := Subst(holes, pat, rep);
      InterleaveTail(pieces, holes, k);
      ReplaceStep(pieces[0], holes[0], Interleave(pieces[1..], holes[1..]), k, rep);
      ReplaceInterleave(pieces[1..], holes[1..], k, rep);
      SubstCons(holes, pat, rep);
    }
  }

  /** What becomes of one hole once every variable has been replaced in
      turn. */
  function FillOne(hole: string, vars: Variables): string
  {
    if vars == [] then hole
    else
      var (k, v) := vars[|vars| - 1];
      var before := FillOne(hole, vars[..|vars| - 1]);
      if before == "$" + k then Show(v) else before
  }

  function Fill(holes: seq<string>, vars: Variables): (r: seq<string>)
    ensures |r| == |holes|
  {
    seq(|holes|, m requires 0 <= m < |holes| => FillOne(holes[m], vars))
  }

  /** A hole is either left as it was or becomes a displayed value, which
      holds no `$` when no displayed value does. */
  lemma {:induction false} FillOneKeeps(hole: string, vars: Variables)
    requires forall j :: 0 <= j < |vars| ==> NoDollar(Show(vars[j].1))
    ensures FillOne(hole, vars) == hole || NoDollar(FillOne(hole, vars))
  {
    if vars != [] {
      FillOneKeeps(hole, vars[..|vars| - 1]);
    }
  }

  /** Rendering a text split at its placeholders fills its holes one
      variable after the other and leaves the pieces as they were, when no
      piece and no displayed value holds a `$`, every piece after a
      placeholder ends its name and no variable's name begins a
      placeholder of another name. */
  lemma {:induction false} RenderedInterleave(pieces: seq<string>, holes: seq<string>, vars: Variables)
    requires |pieces| == |holes| + 1
    requires forall m :: 0 <= m < |pieces| ==> NoDollar(pieces[m])
    requires Delimited(pieces)
    requires forall j :: 0 <= j < |vars| ==> IsName(vars[j].0) && NoDollar(Show(vars[j].1))
    requires forall m, j :: 0 <= m < |holes| && 0 <= j < |vars| ==> Clear(holes[m], vars[j].0)
    ensures Rendered(Interleave(pieces, holes), vars) == Interleave(pieces, Fill(holes, vars))
  {
    if vars != [] {
      var last := |vars| - 1;
      var (k, v) := vars[last];
      var before := vars[..last];
      assert forall j :: 0 <= j < |before| ==> before[j] == vars[j];
      RenderedInterleave(pieces, holes, before);
      var filled := Fill(holes, before);
      assert forall m :: 0 <= m < |holes| ==> Clear(holes[m], vars[last].0);
      FilledClear(holes, before, k);
      ReplaceInterleave(pieces, filled, k, Show(v));
      assert Subst(filled, "$" + k, Show(v)) == Fill(holes, vars);
    } else {
      assert Fill(holes, vars) == holes;
    }
  }

  /** Holes that a pattern leaves alone stay so once earlier variables
      have filled them. */
  lemma FilledClear(holes: seq<string>, vars: Variables, k: string)
    requires forall j :: 0 <= j < |vars| ==> NoDollar(Show(vars[j].1))
    requires forall m :: 0 <= m < |holes| ==> Clear(holes[m], k)
    ensures forall m :: 0 <= m < |holes| ==> Clear(Fill(holes, vars)[m], k)
  {
    forall m | 0 <= m < |holes|
      ensures Clear(Fill(holes, vars)[m], k)
    {
      FillOneKeeps(holes[m], vars);
    }
  }

  /** The placeholders `$name` for a list of names. */
  function Holes(names: seq<string>): (r: seq<string>)
    ensures |r| == |names|
  {
    seq(|names|, m requires 0 <= m < |names| => "$" + names[m])
  }

  /** No two variables share a name, as in a Python dict. */
  predicate DistinctNames(vars: Variables)
  {
    forall i, j :: 0 <= i < j < |vars| ==> vars[i].0 != vars[j].0
  }

  /** The value of the variable called `name`, if there is one. */
  function ValueOf(vars: Variables, name: string): (r: Option<Value>)
    ensures r.Some? <==> exists j :: 0 <= j < |vars| && vars[j].0 == name
    ensures r.Some? ==> exists j :: 0 <= j < |vars| && vars[j] == (name, r.value)
  {
    if vars == [] then None
    else if vars[|vars| - 1].0 == name then Some(vars[|vars| - 1].1)
    else
      var before := ValueOf(vars[..|vars| - 1], name);
      assert forall j :: 0 <= j < |vars| - 1 ==> vars[..|vars| - 1][j] == vars[j];
      before
  }

  /** What the display puts where `$name` stood: the value of the
      variable of that name, or the placeholder itself when there is none. */
  function Display(vars: Variables, name: string): string
  {
    match ValueOf(vars, name)
    case Some(v) => Show(v)
    case None => "$" + name
  }

  function Displays(vars: Variables, names: seq<string>): (r: seq<string>)
    ensures |r| == |names|
  {
    seq(|names|, m requires 0 <= m < |names| => Display(vars, names[m]))
  }

  /** A placeholder ends up as the displayed value of its variable, or
      stays when no variable has its name. */
  lemma {:induction false} FillPlaceholder(name: string, vars: Variables)
    requires IsName(name) && DistinctNames(vars)
    requires forall j :: 0 <= j < |vars| ==> NoDollar(Show(vars[j].1))
    ensures FillOne("$" + name, vars) == Display(vars, name)
  {
    if vars != [] {
      var last := |vars| - 1;
      var (k, v) := vars[last];
      var before := vars[..last];
      assert forall j :: 0 <= j < |before| ==> before[j] == vars[j];
      FillPlaceholder(name, before);
      var b := FillOne("$" + name, before);
      if k == name {
        assert forall j :: 0 <= j < |before| ==> before[j].0 != name;
        assert b == "$" + k;
      } else {
        assert ("$" + k)[1..] == k;
        assert ("$" + name)[1..] == name;
        if ValueOf(before, name).Some? {
          assert b == Show(ValueOf(before, name).value);
          assert NoDollar(b) by {
            var j :| 0 <= j < |before| && before[j] == (name, ValueOf(before, name).value);
            assert vars[j] == before[j];
          }
          assert ("$" + k)[0] == '$';
        }
        assert b != "$" + k;
      }
    }
  }

  /** `render_query_with_values` puts each variable's displayed value where
      its `$name` stands, and leaves the rest of the query as it was: for a
      query made of `$`-free pieces around placeholders, where each piece
      after a placeholder ends its name, no variable's name begins another
      placeholder's name and no displayed value holds a `$`, the rendering
      is the pieces around the displayed values. */
  lemma {:induction false} RenderedTemplate(pieces: seq<string>, names: seq<string>, vars: Variables)
    requires |pieces| == |names| + 1
    requires forall m :: 0 <= m < |pieces| ==> NoDollar(pieces[m])
    requires Delimited(pieces)
    requires forall m :: 0 <= m < |names| ==> IsName(names[m])
    requires DistinctNames(vars)
    requires forall j :: 0 <= j < |vars| ==> IsName(vars[j].0) && NoDollar(Show(vars[j].1))
    requires forall m, j :: 0 <= m < |names| && 0 <= j < |vars| ==>
      (vars[j].0 <= names[m] ==> vars[j].0 == names[m])
    ensures Rendered(Interleave(pieces, Holes(names)), vars) ==
      Interleave(pieces, Displays(vars, names))
  {
    var holes := Holes(names);
    forall m, j | 0 <= m < |holes| && 0 <= j < |vars|
      ensures Clear(holes[m], vars[j].0)
    {
      assert holes[m][1..] == names[m];
    }
    RenderedInterleave(pieces, holes, vars);
    forall m | 0 <= m < |names|
      ensures Fill(holes, vars)[m] == Display(vars, names[m])
    {
      FillPlaceholder(names[m], vars);
    }
    assert Fill(holes, vars) == Displays(vars, names);
  }

  /** `render_query_with_values(query, variables)`. */
  method RenderQueryWithValues(query: string, vars: Variables) returns (rendered: string)
    ensures rendered == Rendered(query, vars)
    ensures vars == [] ==> rendered == query
  {
    if vars == [] {
      return query;
    }
    rendered := query;
    for i := 0 to |vars|
      invariant rendered == Rendered(query, vars[..i])
    {
      var (k, v) := vars[i];
      assert vars[..i + 1][..i] == vars[..i];
      rendered := ReplaceAll(rendered, "$" + k, Show(v));
    }
    assert vars[..|vars|] == vars;
  }

  // --------------------------------------------------------------- payload

  /** The JSON body `query_graphql` posts. */
  datatype Payload = Payload(query: string, variables: Option<Variables>)

  /** `{"query": query}`, with a "variables" key only for non-empty
      variables; the query is sent as written, never rendered. */
  function BuildPayload(query: string, vars: Variables): (p: Payload)
    ensures p.query == query
    ensures p.variables.Some? <==> vars != []
    ensures p.variables.Some? ==> p.variables.value == vars
  {
    if vars != [] then Payload(query, Some(vars)) else Payload(query, None)
  }

  // ------------------------------------------------------------ pagination

  /** The part of a server answer the loop looks at: how many nodes came,
      `pageInfo.hasNextPage` (false when missing) and `pageInfo.endCursor`. */
  datatype Page = Page(nodes: nat, hasNext: bool, endCursor: Option<string>)

  /** What one call of `query_graphql` gives the loop:
      - `NoData`: `None` (an HTTP error status, a body that is not JSON) or
        a falsy reply such as `{}`, which ends the loop;
      - `Crash`: an exception that escapes the loop. `requests.post` or
        `make_headers` raising leaves `resp` unbound in the handler, and a
        reply whose `data`, `monitoringsSafebrands` or `pageInfo` is null,
        or whose `nodes` is null, fails on `.get` or on the iteration;
      - `Got(page)`: a reply the loop reads. */
  datatype Answer = NoData | Crash | Got(page: Page)

  /** The variables of one request. */
  datatype Request = Request(first: int, after: Option<string>, createdAtGt: string)

  /** The variables dict of one request, in the order the loop writes it. */
  function RequestVariables(req: Request): Variables
  {
    [("first", VInt(req.first)),
     ("after", if req.after.Some? then VStr(req.after.value) else VNone),
     ("createdAtGt", VStr(req.createdAtGt))]
  }

  /** Each variable of a request is found under its own name. */
  lemma RequestVariablesValues(req: Request)
    ensures DistinctNames(RequestVariables(req))
    ensures ValueOf(RequestVariables(req), "first") == Some(VInt(req.first))
    ensures ValueOf(RequestVariables(req), "after") ==
      Some(if req.after.Some? then VStr(req.after.value) else VNone)
    ensures ValueOf(RequestVariables(req), "createdAtGt") == Some(VStr(req.createdAtGt))
  {
    var vars := RequestVariables(req);
    assert "first" != "after" && "first" != "createdAtGt" && "after" != "createdAtGt" by {
      assert "first"[0] != "after"[0] && "first"[0] != "createdAtGt"[0] && "after"[0] != "createdAtGt"[0];
    }
    assert vars[..2][..1] == vars[..1];
    assert vars[..1][..0] == [];
    assert ValueOf(vars[..1], "first") == Some(VInt(req.first));
    assert ValueOf(vars[..2], "first") == Some(VInt(req.first));
    assert ValueOf(vars[..2], "after") == Some(vars[1].1);
  }

  /** An integer is displayed without a `$`. */
  lemma IntTextNoDollar(n: int)
    ensures NoDollar(IntText(n))
  {
    var d := Decimal(if n >= 0 then n else -n);
    assert AllDigits(d);
    assert forall i :: 0 <= i < |d| ==> IsDigit(d[i]);
  }

  /** The field call of the monitorings query, split at its placeholders. */
  const CallPieces: seq<string> :=
    ["monitoringsSafebrands(first: ", ", after: ", ", createdAtGt: ", ") {"]
  const CallNames: seq<string> := ["first", "after", "createdAtGt"]

  /** The call's pieces hold no `$` and end the names before them, and no
      request variable's name begins another's. */
  lemma CallPiecesDelimited(req: Request)
    ensures forall m :: 0 <= m < |CallPieces| ==> NoDollar(CallPieces[m])
    ensures Delimited(CallPieces)
    ensures forall m :: 0 <= m < |CallNames| ==> IsName(CallNames[m])
    ensures forall m, j :: 0 <= m < |CallNames| && 0 <= j < |RequestVariables(req)| ==>
      (RequestVariables(req)[j].0 <= CallNames[m] ==> RequestVariables(req)[j].0 == CallNames[m])
  {
    assert CallPieces[1][0] == ',' && CallPieces[2][0] == ',' && CallPieces[3][0] == ')';
    var vars := RequestVariables(req);
    forall m, j | 0 <= m < |CallNames| && 0 <= j < |vars| && vars[j].0 <= CallNames[m]
      ensures vars[j].0 == CallNames[m]
    {
      assert vars[j].0[0] == CallNames[m][0];
    }
  }

  /** A string is displayed without a `$` when it holds none. */
  lemma QuotedNoDollar(s: string)
    requires NoDollar(s)
    ensures NoDollar(Show(VStr(s)))
  {
    var q := Show(VStr(s));
    forall i | 0 <= i < |q|
      ensures q[i] != '$'
    {
      if 0 < i < |q| - 1 {
        assert q[i] == s[i - 1];
      }
    }
  }

  /** The names of a request's variables are names, and their values are
      displayed without a `$` when the cursor and the date hold none. */
  lemma RequestVariablesShown(req: Request)
    requires req.after.Some? ==> NoDollar(req.after.value)
    requires NoDollar(req.createdAtGt)
    ensures forall j :: 0 <= j < |RequestVariables(req)| ==>
      IsName(RequestVariables(req)[j].0) && NoDollar(Show(RequestVariables(req)[j].1))
  {
    var vars := RequestVariables(req);
    IntTextNoDollar(req.first);
    QuotedNoDollar(req.createdAtGt);
    if req.after.Some? {
      QuotedNoDollar(req.after.value);
    }
    assert IsName(vars[0].0) && IsName(vars[1].0) && IsName(vars[2].0);
  }

  /** The verbose display of the monitorings call shows the batch size, the
      cursor (quoted, or `None` before the first page) and the date in place
      of `$first`, `$after` and `$createdAtGt`, when neither the cursor nor
      the date holds a `$`. */
  lemma RenderedMonitoringsCall(req: Request)
    requires req.after.Some? ==> NoDollar(req.after.value)
    requires NoDollar(req.createdAtGt)
    ensures Rendered(Interleave(CallPieces, Holes(CallNames)), RequestVariables(req)) ==
      "monitoringsSafebrands(first: " + IntText(req.first) +
      ", after: " + (if req.after.Some? then "\"" + req.after.value + "\"" else "None") +
      ", createdAtGt: " + ("\"" + req.createdAtGt + "\"") + ") {"
  {
    var vars := RequestVariables(req);
    RequestVariablesValues(req);
    IntTextNoDollar(req.first);
    CallPiecesDelimited(req);
    RequestVariablesShown(req);
    RenderedTemplate(CallPieces, CallNames, vars);
    DisplaysRequest(req);
    InterleaveThree(CallPieces, Displays(vars, CallNames));
  }

  /** What the display puts for `$first`, `$after` and `$createdAtGt`. */
  lemma DisplaysRequest(req: Request)
    ensures var shown := Displays(RequestVariables(req), CallNames);
      && shown[0] == IntText(req.first)
      && shown[1] == (if req.after.Some? then "\"" + req.after.value + "\"" else "None")
      && shown[2] == "\"" + req.createdAtGt + "\""
  {
    RequestVariablesValues(req);
  }

  /** A text with three holes, written out. */
  lemma InterleaveThree(pieces: seq<string>, holes: seq<string>)
    requires |pieces| == 4 && |holes| == 3
    ensures Interleave(pieces, holes) ==
      pieces[0] + holes[0] + pieces[1] + holes[1] + pieces[2] + holes[2] + pieces[3]
  {
    assert Interleave(pieces[3..], holes[3..]) == pieces[3];
    assert Interleave(pieces[2..], holes[2..]) == pieces[2] + holes[2] + pieces[3];
    assert Interleave(pieces[1..], holes[1..]) == pieces[1] + holes[1] + (pieces[2] + holes[2] + pieces[3]);
  }

  /** The requests made, the final `total`, and whether an exception
      ended the loop, in which case the total is never printed. */
  datatype Pages = Pages(requests: seq<Request>, total: int, crashed: bool)

  const PageSize := 100

  /** The batch size for a request made when `total` nodes have come:
      `min(100, limit - total)` with a limit, 100 without. */
  function Batch(limit: Option<int>, total: int): (r: int)
    ensures r <= PageSize
    ensures limit.None? ==> r == PageSize
    ensures limit.Some? ==> r <= limit.value - total && (r == PageSize || r == limit.value - total)
  {
    if limit.Some? then (if PageSize < limit.value - total then PageSize else limit.value - total)
    else PageSize
  }

  /** The `while True` loop of `paginate_monitorings` from `total` and
      `after`, the server's answers still to come in `answers`. When the
      list runs out the call is treated as one that gave no data. */
  function Paginate(limit: Option<int>, created: string, answers: seq<Answer>,
                    total: int, after: Option<string>): (r: Pages)
    ensures r.total >= total
    ensures r.requests == [] <==> limit.Some? && limit.value - total <= 0
    ensures r.requests != [] ==> r.requests[0] == Request(Batch(limit, total), after, created)
    decreases |answers|
  {
    if limit.Some? && limit.value - total <= 0 then Pages([], total, false)
    else
      var req := Request(Batch(limit, total), after, created);
      if answers == [] || answers[0].NoData? then Pages([req], total, false)
      else if answers[0].Crash? then Pages([req], total, true)
      else
        var page := answers[0].page;
        var t := total + page.nodes;
        if !page.hasNext || (limit.Some? && t >= limit.value) then Pages([req], t, false)
        else
          var rest := Paginate(limit, created, answers[1..], t, page.endCursor);
          Pages([req] + rest.requests, rest.total, rest.crashed)
  }

  /** The nodes in the first `k` answers. */
  function NodesIn(answers: seq<Answer>, k: nat): nat
  {
    if k == 0 || answers == [] then 0
    else (if answers[0].Got? then answers[0].page.nodes else 0) + NodesIn(answers[1..], k - 1)
  }

  /** The loop makes at most one request per answer plus one, and
      `total` sums the nodes of the answers it used. The loop ends in an
      exception, and so never prints the total, exactly when the answer to
      its last request is one that crashes. */
  lemma {:induction false} PaginateTotal(limit: Option<int>, created: string, answers: seq<Answer>,
                                        total: int, after: Option<string>)
    ensures var r := Paginate(limit, created, answers, total, after);
      |r.requests| <= |answers| + 1 && r.total == total + NodesIn(answers, |r.requests|)
    ensures var r := Paginate(limit, created, answers, total, after);
      r.crashed <==> 0 < |r.requests| <= |answers| && answers[|r.requests| - 1].Crash?
    decreases |answers|
  {
    var r := Paginate(limit, created, answers, total, after);
    if !(limit.Some? && limit.value - total <= 0) && answers != [] && answers[0].Got? {
      var page := answers[0].page;
      var t := total + page.nodes;
      if page.hasNext && !(limit.Some? && t >= limit.value) {
        var rest := Paginate(limit, created, answers[1..], t, page.endCursor);
        PaginateTotal(limit, created, answers[1..], t, page.endCursor);
        assert |r.requests| == 1 + |rest.requests|;
        assert NodesIn(answers, |r.requests|) == page.nodes + NodesIn(answers[1..], |rest.requests|);
        if 0 < |rest.requests| <= |answers[1..]| {
          assert answers[|r.requests| - 1] == answers[1..][|rest.requests| - 1];
        }
      }
    }
  }

  /** A server whose answers never crash the loop lets it print its
      total. */
  lemma {:induction false} PaginateWithoutCrash(limit: Option<int>, created: string, answers: seq<Answer>,
                             total: int, after: Option<string>)
    requires forall j :: 0 <= j < |answers| ==> !answers[j].Crash?
    ensures !Paginate(limit, created, answers, total, after).crashed
  {
    PaginateTotal(limit, created, answers, total, after);
  }

  /** The first request carries the cursor the loop starts from. */
  lemma PaginateFirstCursor(limit: Option<int>, created: string, answers: seq<Answer>,
                            total: int, after: Option<string>)
    ensures var r := Paginate(limit, created, answers, total, after);
      r.requests != [] ==> r.requests[0].after == after
  {
  }

  /** Request j after the first carries the endCursor of answer j - 1, a
      page that came, said it had a next page and left the total under the
      limit. */
  lemma {:induction false} PaginateCursorAt(limit: Option<int>, created: string, answers: seq<Answer>,
                                           total: int, after: Option<string>, j: nat)
    requires 0 < j < |Paginate(limit, created, answers, total, after).requests|
    ensures j - 1 < |answers| && answers[j - 1].Got?
    ensures Paginate(limit, created, answers, total, after).requests[j].after == answers[j - 1].page.endCursor
    ensures answers[j - 1].page.hasNext
    ensures limit.None? || total + NodesIn(answers, j) < limit.value
    decreases j
  {
    var r := Paginate(limit, created, answers, total, after);
    assert !(limit.Some? && limit.value - total <= 0) && answers != [] && answers[0].Got?;
    var page := answers[0].page;
    var t := total + page.nodes;
    var rest := Paginate(limit, created, answers[1..], t, page.endCursor);
    assert r.requests[j] == rest.requests[j - 1];
    assert NodesIn(answers, j) == page.nodes + NodesIn(answers[1..], j - 1);
    if j == 1 {
      PaginateFirstCursor(limit, created, answers[1..], t, page.endCursor);
    } else {
      PaginateCursorAt(limit, created, answers[1..], t, page.endCursor, j - 1);
      assert answers[j - 1] == answers[1..][j - 2];
    }
  }

  /** The loop chains its requests by cursor: the first carries the cursor
      it starts from, each later one the endCursor of the page before it,
      and it goes on only after a page that said it had a next page and
      left the total under the limit. */
  lemma PaginateCursors(limit: Option<int>, created: string, answers: seq<Answer>,
                        total: int, after: Option<string>)
    ensures var r := Paginate(limit, created, answers, total, after);
      && (r.requests != [] ==> r.requests[0].after == after)
      && |r.requests| <= |answers| + 1
      && (forall k :: 0 <= k < |r.requests| - 1 ==>
            && answers[k].Got?
            && r.requests[k + 1].after == answers[k].page.endCursor
            && answers[k].page.hasNext
            && (limit.None? || total + NodesIn(answers, k + 1) < limit.value))
  {
    var r := Paginate(limit, created, answers, total, after);
    PaginateFirstCursor(limit, created, answers, total, after);
    PaginateTotal(limit, created, answers, total, after);
    forall k | 0 <= k < |r.requests| - 1
      ensures && answers[k].Got?
              && r.requests[k + 1].after == answers[k].page.endCursor
              && answers[k].page.hasNext
              && (limit.None? || total + NodesIn(answers, k + 1) < limit.value)
    {
      PaginateCursorAt(limit, created, answers, total, after, k + 1);
      assert limit.None? || total + NodesIn(answers, k + 1) < limit.value;
    }
  }

  /** Request j carries the batch size for the nodes received before it,
      and that size is positive and at most 100: no request is made once
      the limit is reached. */
  lemma PaginateBatches(limit: Option<int>, created: string, answers: seq<Answer>,
                        total: int, after: Option<string>)
    ensures var r := Paginate(limit, created, answers, total, after);
      forall j :: 0 <= j < |r.requests| ==>
        && r.requests[j].first == Batch(limit, total + NodesIn(answers, j))
        && 0 < r.requests[j].first <= PageSize
        && r.requests[j].createdAtGt == created
  {
    var r := Paginate(limit, created, answers, total, after);
    forall j | 0 <= j < |r.requests|
      ensures && r.requests[j].first == Batch(limit, total + NodesIn(answers, j))
              && 0 < r.requests[j].first <= PageSize
              && r.requests[j].createdAtGt == created
    {
      PaginateBatchAt(limit, created, answers, total, after, j);
    }
  }

  /** Request j, one of them. */
  lemma {:induction false} PaginateBatchAt(limit: Option<int>, created: string, answers: seq<Answer>,
                                          total: int, after: Option<string>, j: nat)
    requires j < |Paginate(limit, created, answers, total, after).requests|
    ensures var q := Paginate(limit, created, answers, total, after).requests[j];
      && q.first == Batch(limit, total + NodesIn(answers, j))
      && 0 < q.first <= PageSize
      && q.createdAtGt == created
    decreases j
  {
    if j > 0 {
      var page := answers[0].page;
      var t := total + page.nodes;
      var rest := Paginate(limit, created, answers[1..], t, page.endCursor);
      assert Paginate(limit, created, answers, total, after).requests[j] == rest.requests[j - 1];
      PaginateBatchAt(limit, created, answers[1..], t, page.endCursor, j - 1);
      assert NodesIn(answers, j) == page.nodes + NodesIn(answers[1..], j - 1);
    }
  }

  /** With a limit, and a server that never sends more nodes than asked
      for, the loop never collects more than the limit. */
  lemma {:induction false} PaginateWithinLimit(limit: int, created: string, answers: seq<Answer>,
                                              total: int, after: Option<string>)
    requires total <= limit
    requires forall j :: 0 <= j < |answers| && answers[j].Got? ==> answers[j].page.nodes <= PageSize
    requires var r := Paginate(Some(limit), created, answers, total, after);
      forall j :: 0 <= j < |r.requests| && j < |answers| && answers[j].Got? ==>
        answers[j].page.nodes <= r.requests[j].first
    ensures Paginate(Some(limit), created, answers, total, after).total <= limit
    decreases |answers|
  {
    var r := Paginate(Some(limit), created, answers, total, after);
    if limit - total > 0 && answers != [] && answers[0].Got? {
      var page := answers[0].page;
      var t := total + page.nodes;
      assert r.requests[0].first == Batch(Some(limit), total);
      if page.hasNext && t < limit {
        var rest := Paginate(Some(limit), created, answers[1..], t, page.endCursor);
        assert r.requests == [r.requests[0]] + rest.requests;
        forall j | 0 <= j < |rest.requests| && j < |answers[1..]| && answers[1..][j].Got?
          ensures answers[1..][j].page.nodes <= rest.requests[j].first
        {
          assert r.requests[j + 1] == rest.requests[j];
        }
        PaginateWithinLimit(limit, created, answers[1..], t, page.endCursor);
      }
    }
  }

  /** `paginate_monitorings` with the answers the server gives, in order;
      `createdAtGt` is the filter given or, when none was, today's
      midnight as `strftime` formats it. */
  method PaginateMonitorings(limit: Option<int>, created: string, answers: seq<Answer>)
    returns (requests: seq<Request>, total: int, crashed: bool)
    ensures Pages(requests, total, crashed) == Paginate(limit, created, answers, 0, None)
  {
    var after: Option<string> := None;
    total := 0;
    requests := [];
    crashed := false;
    var rest := answers;
    ghost var whole := Paginate(limit, created, answers, 0, None);
    while true
      invariant var r := Paginate(limit, created, rest, total, after);
        requests + r.requests == whole.requests && r.total == whole.total && r.crashed == whole.crashed
      invariant !crashed
      decreases |rest|
    {
      var batch;
      if limit.Some? {
        var remaining := limit.value - total;
        if remaining <= 0 {
          break;
        }
        batch := if PageSize < remaining then PageSize else remaining;
      } else {
        batch := PageSize;
      }
      assert batch == Batch(limit, total);
      var req := Request(batch, after, created);
      ghost var before := requests;
      requests := requests + [req];
      if rest == [] || rest[0].NoData? {
        break;
      }
      if rest[0].Crash? {
        crashed := true;
        break;
      }
      var page := rest[0].page;
      total := total + page.nodes;
      if !page.hasNext || (limit.Some? && total >= limit.value) {
        break;
      }
      after := page.endCursor;
      rest := rest[1..];
      AppendAssoc(before, [req], Paginate(limit, created, rest, total, after).requests);
    }
  }

  /** The filter date: the one given, unless it is missing or empty. */
  function CreatedAfter(given: Option<string>, today: string): (d: string)
    ensures given.Some? && given.value != [] ==> d == given.value
    ensures given.None? || given.value == [] ==> d == today
  {
    if given.Some? && given.value != [] then given.value else today
  }

  // ---------------------------------------------------------- custom query

  /** `query_custom`'s normalisation: a client number shorter than eight
      characters is zero-filled to ten and suffixed with "-1". */
  function NormalizeValue(field: string, value: string): (r: string)
    ensures field != "clientNumber" || |value| >= 8 ==> r == value
  {
    if field == "clientNumber" && |value| < 8 then ZFill(value, 10) + "-1" else value
  }

  /** A short client number of digits keeps its value in the first ten
      characters, which are digits, and gains the "-1" suffix. */
  lemma ShortClientNumber(value: string)
    requires |value| < 8 && AllDigits(value)
    ensures var r := NormalizeValue("clientNumber", value);
      |r| == 12 && r[10..] == "-1" && AllDigits(r[..10]) && DigitsValue(r[..10]) == DigitsValue(value)
  {
    var r := NormalizeValue("clientNumber", value);
    ZFillValue(value, 10);
    assert r[..10] == ZFill(value, 10);
  }

  /** The queries `query_custom` can send. */
  datatype QueryKind = Domains | UserSafebrands

  /** `DOMAIN_FIELDS`. */
  predicate IsDomainField(field: string)
  {
    field == "domainName" || field == "domainHandle" || field == "nameServer"
  }

  /** `domains(<field>: ...)` for a domain field, `userSafebrands` with a
      `findUserInput` for any other. */
  function Kind(field: string): (k: QueryKind)
    ensures k == Domains <==> IsDomainField(field)
  {
    if IsDomainField(field) then Domains else UserSafebrands
  }

  /** What `query_custom` asks for: the query kind, the field, and the
      value after normalisation. */
  datatype CustomQuery = CustomQuery(kind: QueryKind, field: string, value: string)

  function QueryCustom(field: string, value: string): (q: CustomQuery)
    ensures q.kind == Domains <==> IsDomainField(field)
    ensures q.field == field
    ensures !IsDomainField(field) && field != "clientNumber" ==> q.value == value
  {
    CustomQuery(Kind(field), field, NormalizeValue(field, value))
  }

  /** Client numbers are looked up with `userSafebrands`, never with
      `domains`, so the normalised value always goes there. */
  lemma ClientNumberUsesUsers(value: string)
    ensures QueryCustom("clientNumber", value).kind == UserSafebrands
  {
    assert "clientNumber"[0] != "domainName"[0];
    assert "clientNumber"[0] != "domainHandle"[0];
    assert "clientNumber"[0] != "nameServer"[0];
  }

  // ------------------------------------------------------------------ main

  /** What `main` does with the parsed arguments. */
  datatype Action = ListMonitorings | Custom(field: string, value: string) | Usage

  /** `--monitorings` first; otherwise a field and a value, both given and
      non-empty; otherwise the usage. */
  function Dispatch(monitorings: bool, field: Option<string>, value: Option<string>): (a: Action)
    ensures a == ListMonitorings <==> monitorings
    ensures a.Custom? <==> !monitorings && field.Some? && field.value != [] && value.Some? && value.value != []
    ensures a.Custom? ==> a.field == field.value && a.value == value.value
  {
    if monitorings then ListMonitorings
    else if field.Some? && field.value != [] && value.Some? && value.value != [] then Custom(field.value, value.value)
    else Usage
  }
}
