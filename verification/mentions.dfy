/** Product mentions in an assistant reply: the reply is split on the
    regular expression `(\[\[.*?\]\])`, each part is matched again against
    `\[\[(.*?)\]\]`, and a matched part names the first catalog product whose
    lower-cased name contains the lower-cased mention. */
module Mentions {
  import opened Wrappers
  import opened Text
  import opened ProductModel

  datatype Segment = Literal(text: string) | ProductRef(id: string, name: string)

  // ---- the regular expression, as a reference definition -------------------

  /** `s[j..k]` can be the lazy `.*?` of a marker whose closing `]]` sits at `k`. */
  ghost predicate ClosesAt(s: string, j: nat, k: nat) {
    j <= k && k + 2 <= |s| && s[k] == ']' && s[k + 1] == ']' &&
    forall m :: j <= m < k ==> !IsLineTerminator(s[m])
  }

  /** `k` is the first possible close from `j`: the lazy match. */
  ghost predicate FirstClose(s: string, j: nat, k: nat) {
    ClosesAt(s, j, k) && forall k': nat :: j <= k' < k ==> !ClosesAt(s, j, k')
  }

  /** A marker `[[...]]` starting at `i` whose closing `]]` is at `k`. */
  ghost predicate MarkerAt(s: string, i: nat, k: nat) {
    i + 2 <= |s| && s[i] == '[' && s[i + 1] == '[' && FirstClose(s, i + 2, k)
  }

  // ---- the matcher ----------------------------------------------------------

  /** Where the lazy `.*?\]\]` starting at `j` ends: the first `]]` reached
      before any line terminator. */
  function CloseFrom(s: string, j: nat): (r: Option<nat>)
    requires j <= |s|
    ensures r.Some? ==> j <= r.value && r.value + 2 <= |s|
    decreases |s| - j
  {
    if j + 2 <= |s| && s[j] == ']' && s[j + 1] == ']' then Some(j)
    else if j == |s| || IsLineTerminator(s[j]) then None
    else CloseFrom(s, j + 1)
  }

  /** `CloseFrom` finds the lazy close of the reference definition. */
  lemma {:induction false} CloseFromSpec(s: string, j: nat)
    requires j <= |s|
    ensures CloseFrom(s, j).Some? ==> FirstClose(s, j, CloseFrom(s, j).value)
    ensures CloseFrom(s, j).None? ==> forall k: nat :: !ClosesAt(s, j, k)
    decreases |s| - j
  {
    if j + 2 <= |s| && s[j] == ']' && s[j + 1] == ']' {
    } else if j == |s| || IsLineTerminator(s[j]) {
    } else {
      CloseFromSpec(s, j + 1);
      assert forall k: nat :: ClosesAt(s, j, k) && k > j ==> ClosesAt(s, j + 1, k);
      assert forall k: nat :: ClosesAt(s, j + 1, k) ==> ClosesAt(s, j, k);
    }
  }

  /** The close of a marker starting at `i`, if one starts there. */
  function MatchAt(s: string, i: nat): Option<nat>
    requires i <= |s|
  {
    if i + 2 <= |s| && s[i] == '[' && s[i + 1] == '[' then CloseFrom(s, i + 2) else None
  }

  /** `MatchAt` finds exactly the markers of the reference definition. */
  lemma MatchAtSpec(s: string, i: nat)
    requires i <= |s|
    ensures MatchAt(s, i).Some? <==> exists k: nat :: MarkerAt(s, i, k)
    ensures MatchAt(s, i).Some? ==> MarkerAt(s, i, MatchAt(s, i).value)
  {
    var r := MatchAt(s, i);
    if i + 2 <= |s| && s[i] == '[' && s[i + 1] == '[' {
      CloseFromSpec(s, i + 2);
      if r.Some? {
        assert MarkerAt(s, i, r.value);
      }
    }
  }

  datatype Span = Span(start: nat, close: nat)

  /** The leftmost marker starting at or after `from`. */
  function FindFrom(s: string, from: nat): (r: Option<Span>)
    requires from <= |s|
    ensures r.Some? ==> from <= r.value.start && r.value.start + 2 <= r.value.close && r.value.close + 2 <= |s|
    decreases |s| - from
  {
    if from == |s| then None
    else
      match MatchAt(s, from)
      case Some(k) => Some(Span(from, k))
      case None => FindFrom(s, from + 1)
  }

  /** `FindFrom` finds the leftmost start. */
  lemma {:induction false} FindFromSpec(s: string, from: nat)
    requires from <= |s|
    ensures FindFrom(s, from).Some? ==> MatchAt(s, FindFrom(s, from).value.start) == Some(FindFrom(s, from).value.close)
    ensures FindFrom(s, from).Some? ==> forall i :: from <= i < FindFrom(s, from).value.start ==> MatchAt(s, i).None?
    ensures FindFrom(s, from).None? ==> forall i :: from <= i <= |s| ==> MatchAt(s, i).None?
    decreases |s| - from
  {
    if from < |s| && MatchAt(s, from).None? {
      FindFromSpec(s, from + 1);
    }
  }

  // ---- split ----------------------------------------------------------------

  /** `s.slice(from).split(/(\[\[.*?\]\])/g)`: literal, marker, literal, ...,
      literal; the literal parts may be empty. */
  function SplitFrom(s: string, from: nat): (parts: seq<string>)
    requires from <= |s|
    ensures |parts| % 2 == 1
    decreases |s| - from
  {
    match FindFrom(s, from)
    case None => [s[from..]]
    case Some(sp) =>
      [s[from..sp.start], s[sp.start..sp.close + 2]] + SplitFrom(s, sp.close + 2)
  }

  /** One step of the split, spelled out. */
  lemma SplitFromStep(s: string, from: nat)
    requires from <= |s|
    ensures FindFrom(s, from).None? ==> SplitFrom(s, from) == [s[from..]]
    ensures FindFrom(s, from).Some? ==>
      var sp := FindFrom(s, from).value;
      sp.start <= sp.close && sp.close + 2 <= |s| &&
      SplitFrom(s, from) == [s[from..sp.start], s[sp.start..sp.close + 2]] + SplitFrom(s, sp.close + 2)
  {
  }

  function Split(s: string): seq<string> {
    SplitFrom(s, 0)
  }

  function Concat(parts: seq<string>): string
    decreases |parts|
  {
    if |parts| == 0 then "" else parts[0] + Concat(parts[1..])
  }

  /** `part.match(/\[\[(.*?)\]\]/)`: the inner text of the leftmost marker. */
  function MarkerName(part: string): Option<string> {
    match FindFrom(part, 0)
    case Some(sp) => Some(part[sp.start + 2..sp.close])
    case None => None
  }

  /** The name found is the inside of a marker of the part, and none is
      found exactly when the part holds no marker. */
  lemma MarkerNameSpec(part: string)
    ensures MarkerName(part).Some? ==>
      exists i: nat, k: nat :: MarkerAt(part, i, k) && MarkerName(part).value == part[i + 2..k]
    ensures MarkerName(part).None? ==> forall i: nat, k: nat :: !MarkerAt(part, i, k)
  {
    match FindFrom(part, 0)
    case Some(sp) =>
      FindFromSpec(part, 0);
      MatchAtSpec(part, sp.start);
      assert MarkerAt(part, sp.start, sp.close);
    case None =>
      NoMarkerWhenNoneFound(part);
  }

  lemma NoMarkerWhenNoneFound(s: string)
    requires FindFrom(s, 0).None?
    ensures forall i: nat, k: nat :: !MarkerAt(s, i, k)
  {
    FindFromSpec(s, 0);
    forall i: nat, k: nat
      ensures !MarkerAt(s, i, k)
    {
      if i <= |s| {
        assert MatchAt(s, i).None?;
        MatchAtSpec(s, i);
      }
    }
  }

  // ---- resolution and rendering -------------------------------------------

  predicate NameMatches(name: string, p: Product) {
    ContainsIgnoringCase(p.artName, name)
  }

  /** `catalog[i]` is the first product the mention matches. */
  predicate IsFirstMatch(name: string, catalog: seq<Product>, i: nat)
    requires i < |catalog|
  {
    NameMatches(name, catalog[i]) && forall j :: 0 <= j < i ==> !NameMatches(name, catalog[j])
  }

  /** `allProducts.find(...)`: the first product, in catalog order, whose
      lower-cased name contains the lower-cased mention. */
  function Resolve(name: string, catalog: seq<Product>): (r: Option<Product>)
    ensures r.None? <==> forall i :: 0 <= i < |catalog| ==> !NameMatches(name, catalog[i])
    ensures r.Some? ==> exists i :: 0 <= i < |catalog| && catalog[i] == r.value && IsFirstMatch(name, catalog, i)
    decreases |catalog|
  {
    if |catalog| == 0 then None
    else if NameMatches(name, catalog[0]) then Some(catalog[0])
    else
      var r := Resolve(name, catalog[1..]);
      assert forall i :: 1 <= i < |catalog| ==> catalog[i] == catalog[1..][i - 1];
      if r.Some? then
        var i :| 0 <= i < |catalog[1..]| && catalog[1..][i] == r.value && IsFirstMatch(name, catalog[1..], i);
        assert catalog[i + 1] == r.value && IsFirstMatch(name, catalog, i + 1);
        r
      else r
  }

  /** A marker part whose name no catalog product matches. */
  predicate Dangles(part: string, catalog: seq<Product>) {
    MarkerName(part).Some? && Resolve(MarkerName(part).value, catalog).None?
  }

  /** One part: a resolved marker becomes a product reference carrying the
      catalog's id and name, an unresolved marker disappears, and any other
      part is kept as literal text. */
  function RenderPart(part: string, catalog: seq<Product>): (r: seq<Segment>)
    ensures MarkerName(part).None? ==> r == [Literal(part)]
    ensures Dangles(part, catalog) ==> r == []
    ensures MarkerName(part).Some? && !Dangles(part, catalog) ==>
      exists i :: 0 <= i < |catalog| && IsFirstMatch(MarkerName(part).value, catalog, i) &&
        r == [ProductRef(catalog[i].id, catalog[i].artName)]
  {
    match MarkerName(part)
    case Some(name) =>
      (match Resolve(name, catalog)
       case Some(p) => [ProductRef(p.id, p.artName)]
       case None => [])
    case None => [Literal(part)]
  }

  function RenderParts(parts: seq<string>, catalog: seq<Product>): (r: seq<Segment>)
    ensures |r| <= |parts|
    decreases |parts|
  {
    if |parts| == 0 then [] else RenderPart(parts[0], catalog) + RenderParts(parts[1..], catalog)
  }

  /** The segments shown for an assistant reply: one per part, except the
      dangling markers, which show nothing. */
  function Extract(text: string, catalog: seq<Product>): (r: seq<Segment>)
    ensures |r| <= |Split(text)|
    ensures |r| + DanglingCount(Split(text), catalog) == |Split(text)|
  {
    DanglingDropped(Split(text), catalog);
    RenderParts(Split(text), catalog)
  }

  /** Rendering goes part by part, in part order. */
  lemma {:induction false} RenderPartsConcat(a: seq<string>, b: seq<string>, catalog: seq<Product>)
    ensures RenderParts(a + b, catalog) == RenderParts(a, catalog) + RenderParts(b, catalog)
    decreases |a|
  {
    if |a| > 0 {
      assert (a + b)[0] == a[0] && (a + b)[1..] == a[1..] + b;
      RenderPartsConcat(a[1..], b, catalog);
    } else {
      assert a + b == b;
    }
  }

  /** One part renders as `RenderPart` alone. */
  lemma RenderPartsOne(part: string, catalog: seq<Product>)
    ensures RenderParts([part], catalog) == RenderPart(part, catalog)
  {
    assert RenderParts([part][1..], catalog) == [];
  }

  /** How many parts are dangling markers. */
  function DanglingCount(parts: seq<string>, catalog: seq<Product>): nat
    decreases |parts|
  {
    if |parts| == 0 then 0
    else (if Dangles(parts[0], catalog) then 1 else 0) + DanglingCount(parts[1..], catalog)
  }

  /** Every part yields one segment except a dangling marker, which yields none. */
  lemma {:induction false} DanglingDropped(parts: seq<string>, catalog: seq<Product>)
    ensures |RenderParts(parts, catalog)| + DanglingCount(parts, catalog) == |parts|
    decreases |parts|
  {
    if |parts| > 0 {
      DanglingDropped(parts[1..], catalog);
    }
  }

  // ---- properties -----------------------------------------------------------

  /** Joining the split parts gives back the text. */
  lemma {:induction false} SplitFromConcat(s: string, from: nat)
    requires from <= |s|
    ensures Concat(SplitFrom(s, from)) == s[from..]
    decreases |s| - from
  {
    var found := FindFrom(s, from);
    SplitFromStep(s, from);
    if found.None? {
      assert Concat([s[from..]]) == s[from..] + Concat([]);
    } else {
      var st, close := found.value.start, found.value.close;
      var rest := SplitFrom(s, close + 2);
      SplitFromConcat(s, close + 2);
      JoinStep(s, from, st, close + 2, rest);
    }
  }

  lemma JoinStep(s: string, from: nat, st: nat, end: nat, rest: seq<string>)
    requires from <= st <= end <= |s|
    requires Concat(rest) == s[end..]
    ensures Concat([s[from..st], s[st..end]] + rest) == s[from..]
  {
    ConcatPair(s[from..st], s[st..end], rest);
    SliceSplit(s, from, st, end);
  }

  lemma ConcatPair(x: string, y: string, rest: seq<string>)
    ensures Concat([x, y] + rest) == x + y + Concat(rest)
  {
    var parts := [x, y] + rest;
    assert parts[1..] == [y] + rest;
    assert ([y] + rest)[1..] == rest;
  }

  lemma SliceSplit(s: string, a: nat, m1: nat, m2: nat)
    requires a <= m1 <= m2 <= |s|
    ensures s[a..] == s[a..m1] + s[m1..m2] + s[m2..]
  {
  }

  lemma SplitConcat(s: string)
    ensures Concat(Split(s)) == s
  {
    SplitFromConcat(s, 0);
  }

  /** A possible close of `s` inside `s[a..b]` is one of the slice, and
      the other way round. */
  lemma ClosesInSlice(s: string, a: nat, b: nat, j: nat, k: nat)
    requires a <= j <= k && k + 2 <= b <= |s|
    ensures ClosesAt(s, j, k) <==> ClosesAt(s[a..b], j - a, k - a)
  {
    var t := s[a..b];
    assert forall m :: j <= m < k + 2 ==> t[m - a] == s[m];
    if ClosesAt(t, j - a, k - a) {
      forall m | j <= m < k
        ensures !IsLineTerminator(s[m])
      {
        assert !IsLineTerminator(t[m - a]);
      }
    }
  }

  /** A marker of `s` lying inside `s[a..b]` is a marker of the slice, and
      the other way round. */
  lemma MarkerInSlice(s: string, a: nat, b: nat, i: nat, k: nat)
    requires a <= i && i + 2 <= k && k + 2 <= b <= |s|
    ensures MarkerAt(s, i, k) <==> MarkerAt(s[a..b], i - a, k - a)
  {
    var t := s[a..b];
    var j := i + 2;
    assert t[i - a] == s[i] && t[i + 1 - a] == s[i + 1];
    ClosesInSlice(s, a, b, j, k);
    var jt, kt := j - a, k - a;
    if MarkerAt(s, i, k) {
      forall k2: nat | jt <= k2 < kt
        ensures !ClosesAt(t, jt, k2)
      {
        ClosesInSlice(s, a, b, j, k2 + a);
      }
    }
    if MarkerAt(t, i - a, k - a) {
      forall k2: nat | j <= k2 < k
        ensures !ClosesAt(s, j, k2)
      {
        ClosesInSlice(s, a, b, j, k2);
      }
    }
  }

  /** A literal part of the split holds no marker. */
  lemma LiteralHasNoMarker(s: string, from: nat, end: nat)
    requires from <= end <= |s|
    requires forall i :: from <= i < end ==> MatchAt(s, i).None?
    ensures MarkerName(s[from..end]).None?
  {
    var t := s[from..end];
    forall i: nat, k: nat
      ensures !MarkerAt(t, i, k)
    {
      if k + 2 <= |t| && i + 2 <= k {
        MarkerInSlice(s, from, end, from + i, from + k);
        if from + i < end {
          assert MatchAt(s, from + i).None?;
          MatchAtSpec(s, from + i);
        }
      }
    }
    MarkerNameSpec(t);
  }

  /** A marker part of the split matches again as a whole, and its name is
      the text between the brackets. */
  lemma MarkerPartName(s: string, st: nat, close: nat)
    requires st <= |s| && MatchAt(s, st) == Some(close)
    ensures WholeMarker(s[st..close + 2])
    ensures MarkerName(s[st..close + 2]) == Some(s[st + 2..close])
  {
    var t := s[st..close + 2];
    MatchAtSpec(s, st);
    MarkerInSlice(s, st, close + 2, st, close);
    var r := MatchAt(t, 0);
    MatchAtSpec(t, 0);
    assert MarkerAt(t, 0, close - st);
    assert r.Some? && MarkerAt(t, 0, r.value);
    assert FindFrom(t, 0) == Some(Span(0, close - st));
    assert t[2..close - st] == s[st + 2..close];
  }

  /** The part is one marker from its first character to its last. */
  predicate WholeMarker(part: string) {
    |part| >= 4 && FindFrom(part, 0) == Some(Span(0, |part| - 2))
  }

  /** Split parts alternate: even positions hold literal text with no
      marker, odd positions hold exactly one whole marker. */
  predicate Alternating(parts: seq<string>) {
    forall n :: 0 <= n < |parts| ==>
      if n % 2 == 0 then MarkerName(parts[n]).None? else WholeMarker(parts[n])
  }

  lemma {:induction false} SplitFromClassified(s: string, from: nat)
    requires from <= |s|
    ensures Alternating(SplitFrom(s, from))
    decreases |s| - from
  {
    FindFromSpec(s, from);
    SplitFromStep(s, from);
    if FindFrom(s, from).None? {
      LiteralHasNoMarker(s, from, |s|);
      assert s[from..|s|] == s[from..];
    } else {
      var sp := FindFrom(s, from).value;
      var lit := s[from..sp.start];
      var mark := s[sp.start..sp.close + 2];
      var rest := SplitFrom(s, sp.close + 2);
      LiteralHasNoMarker(s, from, sp.start);
      MarkerPartName(s, sp.start, sp.close);
      SplitFromClassified(s, sp.close + 2);
      ClassifiedCons(lit, mark, rest);
      assert SplitFrom(s, from) == [lit, mark] + rest;
    }
  }

  /** A literal and a marker in front of an alternating list keep it alternating. */
  lemma ClassifiedCons(lit: string, mark: string, rest: seq<string>)
    requires MarkerName(lit).None? && WholeMarker(mark)
    requires Alternating(rest)
    ensures Alternating([lit, mark] + rest)
  {
    var parts := [lit, mark] + rest;
    forall n | 2 <= n < |parts|
      ensures if n % 2 == 0 then MarkerName(parts[n]).None? else WholeMarker(parts[n])
    {
      assert parts[n] == rest[n - 2];
      assert n % 2 == (n - 2) % 2;
    }
  }

  lemma SplitClassified(s: string)
    ensures forall n :: 0 <= n < |Split(s)| ==> (n % 2 == 0 <==> MarkerName(Split(s)[n]).None?)
  {
    SplitFromClassified(s, 0);
    assert Split(s) == SplitFrom(s, 0);
  }

  // ---- the split is the leftmost one ---------------------------------------

  /** Dropping a prefix of the text shifts a close by its length. */
  lemma {:induction false} CloseFromSuffix(s: string, a: nat, j: nat)
    requires a <= j <= |s|
    ensures CloseFrom(s[a..], j - a).Some? <==> CloseFrom(s, j).Some?
    ensures CloseFrom(s, j).Some? ==> CloseFrom(s[a..], j - a).value + a == CloseFrom(s, j).value
    decreases |s| - j
  {
    var t := s[a..];
    if j < |s| {
      assert t[j - a] == s[j];
      if j + 1 < |s| {
        assert t[j - a + 1] == s[j + 1];
      }
      CloseFromSuffix(s, a, j + 1);
    }
  }

  /** Dropping a prefix of the text shifts a marker by its length. */
  lemma MatchAtSuffix(s: string, a: nat, i: nat)
    requires a <= i <= |s|
    ensures MatchAt(s[a..], i - a).Some? <==> MatchAt(s, i).Some?
    ensures MatchAt(s, i).Some? ==> MatchAt(s[a..], i - a).value + a == MatchAt(s, i).value
  {
    var t := s[a..];
    if i + 2 <= |s| {
      assert t[i - a] == s[i] && t[i - a + 1] == s[i + 1];
      CloseFromSuffix(s, a, i + 2);
    }
  }

  /** Dropping a prefix of the text shifts the leftmost marker by its length. */
  lemma {:induction false} FindFromSuffix(s: string, a: nat, from: nat)
    requires a <= from <= |s|
    ensures FindFrom(s[a..], from - a).Some? <==> FindFrom(s, from).Some?
    ensures FindFrom(s, from).Some? ==>
      FindFrom(s[a..], from - a).value.start + a == FindFrom(s, from).value.start &&
      FindFrom(s[a..], from - a).value.close + a == FindFrom(s, from).value.close
    decreases |s| - from
  {
    if from < |s| {
      MatchAtSuffix(s, a, from);
      FindFromSuffix(s, a, from + 1);
    }
  }

  /** Literal part `n` ends exactly where the leftmost marker of the text
      from it onwards starts, and the next part is that marker; after the
      last part no marker starts at all. */
  predicate NextMarkerAfter(parts: seq<string>, n: nat)
    requires n < |parts|
  {
    var found := FindFrom(Concat(parts[n..]), 0);
    if n + 1 < |parts| then
      found.Some? && found.value.start == |parts[n]| && found.value.close + 2 == |parts[n]| + |parts[n + 1]|
    else found.None?
  }

  /** Every literal part is followed by the leftmost marker after it: no
      marker of the text starts inside a literal part. */
  predicate Leftmost(parts: seq<string>) {
    forall n: nat :: n < |parts| && n % 2 == 0 ==> NextMarkerAfter(parts, n)
  }

  lemma {:induction false} SplitFromLeftmost(s: string, from: nat)
    requires from <= |s|
    ensures Leftmost(SplitFrom(s, from))
    decreases |s| - from
  {
    var parts := SplitFrom(s, from);
    SplitFromStep(s, from);
    SplitFromConcat(s, from);
    FindFromSuffix(s, from, from);
    assert parts[0..] == parts;
    if FindFrom(s, from).Some? {
      var sp := FindFrom(s, from).value;
      SplitFromLeftmost(s, sp.close + 2);
      assert NextMarkerAfter(parts, 0);
      LeftmostCons(s[from..sp.start], s[sp.start..sp.close + 2], SplitFrom(s, sp.close + 2));
    } else {
      assert NextMarkerAfter(parts, 0);
    }
  }

  /** A literal and its marker in front of a leftmost split keep it leftmost. */
  lemma LeftmostCons(lit: string, mark: string, rest: seq<string>)
    requires NextMarkerAfter([lit, mark] + rest, 0)
    requires Leftmost(rest)
    ensures Leftmost([lit, mark] + rest)
  {
    var parts := [lit, mark] + rest;
    forall n: nat | 2 <= n < |parts| && n % 2 == 0
      ensures NextMarkerAfter(parts, n)
    {
      assert parts[n..] == rest[n - 2..];
      assert NextMarkerAfter(rest, n - 2);
    }
  }

  /** `split` cuts the reply at its leftmost markers. */
  lemma SplitLeftmost(s: string)
    ensures Leftmost(Split(s)) && Alternating(Split(s))
  {
    SplitFromLeftmost(s, 0);
    SplitFromClassified(s, 0);
  }

  /** Text with no marker is shown as one literal segment equal to it. */
  lemma NoMarkerIsOneLiteral(text: string, catalog: seq<Product>)
    requires forall i: nat, k: nat :: !MarkerAt(text, i, k)
    ensures Extract(text, catalog) == [Literal(text)]
  {
    forall i: nat | i <= |text|
      ensures MatchAt(text, i).None?
    {
      MatchAtSpec(text, i);
    }
    FindFromSpec(text, 0);
    assert FindFrom(text, 0).None?;
    assert text[0..] == text;
    LiteralHasNoMarker(text, 0, |text|);
  }

  /** `g` is the reference a marker part renders to: the first catalog
      product its name matches. */
  predicate RefersTo(g: Segment, part: string, catalog: seq<Product>) {
    && MarkerName(part).Some?
    && Resolve(MarkerName(part).value, catalog).Some?
    && var p := Resolve(MarkerName(part).value, catalog).value;
       g == ProductRef(p.id, p.artName)
  }

  /** What the rendered segments carry: literal segments are parts of the
      split that hold no marker; each product reference is what some marker
      part resolves to, the first catalog product its name matches. */
  lemma {:induction false} RenderedSegments(parts: seq<string>, catalog: seq<Product>)
    ensures forall g :: g in RenderParts(parts, catalog) ==>
      (g.Literal? ==> g.text in parts && MarkerName(g.text).None?) &&
      (g.ProductRef? ==> exists n :: 0 <= n < |parts| && RefersTo(g, parts[n], catalog))
    decreases |parts|
  {
    if |parts| > 0 {
      RenderedSegments(parts[1..], catalog);
      assert forall x :: x in parts[1..] ==> x in parts;
      assert forall n :: 1 <= n < |parts| ==> parts[1..][n - 1] == parts[n];
    }
  }

  /** When every marker resolves, every part yields exactly one segment. */
  lemma {:induction false} AllResolvedKeepsCount(parts: seq<string>, catalog: seq<Product>)
    requires forall n :: 0 <= n < |parts| && MarkerName(parts[n]).Some? ==>
      Resolve(MarkerName(parts[n]).value, catalog).Some?
    ensures |RenderParts(parts, catalog)| == |parts|
    decreases |parts|
  {
    if |parts| > 0 {
      assert forall n :: 1 <= n < |parts| ==> parts[1..][n - 1] == parts[n];
      AllResolvedKeepsCount(parts[1..], catalog);
    }
  }

  /** Every name contains the empty string, so an empty marker `[[]]`
      names the first catalog product. */
  lemma EmptyMentionIsFirstProduct(catalog: seq<Product>)
    requires |catalog| > 0
    ensures Resolve("", catalog) == Some(catalog[0])
  {
    ContainsEmpty(Lower(catalog[0].artName));
  }

  /** Text without a `[` holds no marker. */
  lemma {:induction false} NoBracketNoMarker(s: string, from: nat)
    requires from <= |s|
    requires forall i :: from <= i < |s| ==> s[i] != '['
    ensures FindFrom(s, from).None?
    decreases |s| - from
  {
    if from < |s| {
      NoBracketNoMarker(s, from + 1);
    }
  }

  /** A run with no `]` and no line terminator, followed by `]]`, closes there. */
  lemma {:induction false} CloseAfterPlainRun(s: string, j: nat, k: nat)
    requires j <= k && k + 2 <= |s| && s[k] == ']' && s[k + 1] == ']'
    requires forall m :: j <= m < k ==> s[m] != ']' && !IsLineTerminator(s[m])
    ensures CloseFrom(s, j) == Some(k)
    decreases k - j
  {
    if j < k {
      CloseAfterPlainRun(s, j + 1, k);
    }
  }

  lemma RedPaintFind()
    ensures FindFrom("Try [[Red Paint]] today", 0) == Some(Span(4, 15))
  {
    var text := "Try [[Red Paint]] today";
    CloseAfterPlainRun(text, 6, 15);
    assert MatchAt(text, 4) == Some(15);
    assert FindFrom(text, 4) == Some(Span(4, 15));
    assert FindFrom(text, 3) == FindFrom(text, 4);
    assert FindFrom(text, 2) == FindFrom(text, 3);
    assert FindFrom(text, 1) == FindFrom(text, 2);
  }

  lemma RedPaintSplit()
    ensures Split("Try [[Red Paint]] today") == ["Try ", "[[Red Paint]]", " today"]
  {
    var text := "Try [[Red Paint]] today";
    RedPaintFind();
    SplitFromStep(text, 0);
    NoBracketNoMarker(text, 17);
    assert SplitFrom(text, 17) == [text[17..]];
    assert text[17..] == " today" && text[0..4] == "Try ";
    RedPaintMarkerSlice();
  }

  lemma RedPaintMarkerSlice()
    ensures "Try [[Red Paint]] today"[4..17] == "[[Red Paint]]"
    ensures "Try [[Red Paint]] today"[6..15] == "Red Paint"
  {
    var text := "Try [[Red Paint]] today";
    var m := "[[Red Paint]]";
    assert forall i :: 0 <= i < 13 ==> text[4..17][i] == text[4 + i];
    assert forall i :: 0 <= i < 13 ==> text[4 + i] == m[i];
    assert m[2..11] == "Red Paint";
    assert text[6..15] == text[4..17][2..11];
  }

  lemma RedPaintNames()
    ensures MarkerName("[[Red Paint]]") == Some("Red Paint")
    ensures MarkerName("Try ").None? && MarkerName(" today").None?
  {
    var text := "Try [[Red Paint]] today";
    RedPaintFind();
    FindFromSpec(text, 0);
    MarkerPartName(text, 4, 15);
    RedPaintMarkerSlice();
    NoBracketNoMarker("Try ", 0);
    NoBracketNoMarker(" today", 0);
  }

  /** A one-product catalog and a reply mentioning it by name. */
  lemma RedPaintScenario(p: Product)
    requires p.id == "1" && p.artName == "Red Paint"
    ensures Extract("Try [[Red Paint]] today", [p]) ==
      [Literal("Try "), ProductRef("1", "Red Paint"), Literal(" today")]
  {
    RedPaintSplit();
    RedPaintParts(p);
    var parts := ["Try ", "[[Red Paint]]", " today"];
    assert parts[1..][1..] == [" today"];
    assert RenderParts(parts, [p]) == RenderPart("Try ", [p]) + RenderPart("[[Red Paint]]", [p]) + RenderPart(" today", [p]);
  }

  /** Each part of the scenario's reply on its own. */
  lemma RedPaintParts(p: Product)
    requires p.id == "1" && p.artName == "Red Paint"
    ensures RenderPart("Try ", [p]) == [Literal("Try ")]
    ensures RenderPart("[[Red Paint]]", [p]) == [ProductRef("1", "Red Paint")]
    ensures RenderPart(" today", [p]) == [Literal(" today")]
  {
    RedPaintNames();
    assert Resolve("Red Paint", [p]) == Some(p);
  }
}
