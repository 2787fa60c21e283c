/** The filter pipeline of the product list view as pure functions over the
    sequence of settled (already debounced) values of the filter text box:
    trim, keep only empty or at-least-three-character text, drop consecutive
    duplicates, and start with the empty filter. */
module FilterPipeline {
  import opened Optional
  import opened Catalog
  import opened Text

  /** `a` is `b` with some elements left out, order kept. */
  predicate IsSubsequence<T(==)>(a: seq<T>, b: seq<T>)
    decreases |b|
  {
    if a == [] then true
    else if b == [] then false
    else (a[0] == b[0] && IsSubsequence(a[1..], b[1..])) || IsSubsequence(a, b[1..])
  }

  predicate NoAdjacentRepeats(r: seq<string>) {
    forall i :: 0 <= i < |r| - 1 ==> r[i] != r[i + 1]
  }

  /** Filter text that passes, once trimmed: no filter, or at least three
      characters. */
  predicate Accepted(t: string) {
    t == [] || |t| > 2
  }

  /** The gate rejects exactly the texts of one or two characters. */
  lemma AcceptedIff(t: string)
    ensures Accepted(t) <==> !(1 <= |t| <= 2)
  {
  }

  /** The trimming stage, applied to every settled input. */
  function MapTrim(inputs: seq<string>): (r: seq<string>)
    ensures |r| == |inputs|
    ensures forall j :: 0 <= j < |inputs| ==> r[j] == Trim(inputs[j])
    ensures forall j :: 0 <= j < |r| ==> IsTrimmed(r[j])
  {
    seq(|inputs|, j requires 0 <= j < |inputs| => Trim(inputs[j]))
  }

  /** The length gate: keeps accepted texts, in order. */
  function KeepAccepted(xs: seq<string>): seq<string>
    decreases |xs|
  {
    if xs == [] then []
    else
      var x := xs[|xs| - 1];
      KeepAccepted(xs[..|xs| - 1]) + (if Accepted(x) then [x] else [])
  }

  /** The gate never lengthens its input, and it passes its input through
      unchanged exactly when every text in it is accepted. */
  lemma {:induction false} KeepAcceptedKeepsAllIff(xs: seq<string>)
    ensures |KeepAccepted(xs)| <= |xs|
    ensures KeepAccepted(xs) == xs <==> forall k :: 0 <= k < |xs| ==> Accepted(xs[k])
    decreases |xs|
  {
    if xs != [] {
      var init := xs[..|xs| - 1];
      var x := xs[|xs| - 1];
      KeepAcceptedKeepsAllIff(init);
      assert xs == init + [x];
      if Accepted(x) {
        if KeepAccepted(xs) == xs {
          assert KeepAccepted(init) == KeepAccepted(xs)[..|xs| - 1];
        }
        assert (forall k :: 0 <= k < |xs| ==> Accepted(xs[k]))
          <==> (forall k :: 0 <= k < |init| ==> Accepted(init[k])) by {
          assert forall k :: 0 <= k < |init| ==> init[k] == xs[k];
        }
      } else {
        assert |KeepAccepted(xs)| < |xs|;
      }
    }
  }

  /** The gate only leaves texts out, keeping the order, and it leaves out
      exactly the texts that are not accepted. */
  lemma {:induction false} KeepAcceptedElements(xs: seq<string>)
    ensures IsSubsequence(KeepAccepted(xs), xs)
    ensures forall x :: x in KeepAccepted(xs) <==> x in xs && Accepted(x)
    decreases |xs|
  {
    if xs != [] {
      var init := xs[..|xs| - 1];
      var x := xs[|xs| - 1];
      KeepAcceptedElements(init);
      assert xs == init + [x];
      SubsequenceSnoc(KeepAccepted(init), init, x, Accepted(x));
    }
  }

  lemma {:induction false} SubsequenceSnoc<T>(a: seq<T>, b: seq<T>, x: T, keep: bool)
    requires IsSubsequence(a, b)
    ensures IsSubsequence(a + (if keep then [x] else []), b + [x])
    decreases |b|
  {
    var a' := a + (if keep then [x] else []);
    if b == [] {
      assert a == [];
      if keep { assert a' == [x] && a'[1..] == []; }
    } else if a == [] {
      if keep {
        assert a' == [x];
        SubsequenceEmpty(b + [x]);
        assert IsSubsequence([x], [x]) by { assert [x][1..] == []; }
        SubsequenceDropPrefix([x], b, [x]);
      } else {
        assert a' == [];
      }
    } else {
      assert (b + [x])[1..] == b[1..] + [x];
      if a[0] == b[0] && IsSubsequence(a[1..], b[1..]) {
        SubsequenceSnoc(a[1..], b[1..], x, keep);
        assert a'[1..] == a[1..] + (if keep then [x] else []);
      } else {
        SubsequenceSnoc(a, b[1..], x, keep);
      }
    }
  }

  lemma {:induction false} SubsequenceShorter<T>(a: seq<T>, b: seq<T>)
    requires IsSubsequence(a, b)
    ensures |a| <= |b|
    decreases |b|
  {
    if a != [] {
      if a[0] == b[0] && IsSubsequence(a[1..], b[1..]) {
        SubsequenceShorter(a[1..], b[1..]);
      } else {
        SubsequenceShorter(a, b[1..]);
      }
    }
  }

  lemma SubsequenceEmpty<T>(b: seq<T>)
    ensures IsSubsequence([], b)
  {
  }

  /** A subsequence of `c` is a subsequence of `p + c`. */
  lemma {:induction false} SubsequenceDropPrefix<T>(a: seq<T>, p: seq<T>, c: seq<T>)
    requires IsSubsequence(a, c)
    ensures IsSubsequence(a, p + c)
    decreases |p|
  {
    if p != [] {
      assert (p + c)[1..] == p[1..] + c;
      SubsequenceDropPrefix(a, p[1..], c);
    } else {
      assert p + c == c;
    }
  }

  /** The value `distinctUntilChanged` remembers after reading `xs`, starting
      from `last`. */
  function LastSeen(last: Option<string>, xs: seq<string>): Option<string> {
    if xs == [] then last else Some(xs[|xs| - 1])
  }

  /** `distinctUntilChanged` run from remembered value `last`: a text is passed
      on only when it differs from the one before it. The value it remembers
      at the end is the last value it passed on (or `last` if it passed none). */
  function DistinctFrom(last: Option<string>, xs: seq<string>): (r: seq<string>)
    ensures NoAdjacentRepeats(r)
    ensures r != [] ==> last != Some(r[0])
    ensures LastSeen(last, r) == LastSeen(last, xs)
    decreases |xs|
  {
    if xs == [] then []
    else if last == Some(xs[0]) then
      DistinctFrom(last, xs[1..])
    else
      var rest := DistinctFrom(Some(xs[0]), xs[1..]);
      var r := [xs[0]] + rest;
      assert forall i :: 1 <= i < |r| ==> r[i] == rest[i - 1];
      r
  }

  /** `distinctUntilChanged` only leaves texts out, keeping the order, and it
      leaves out nothing but repeats of the remembered value. */
  lemma {:induction false} DistinctKeepsElements(last: Option<string>, xs: seq<string>)
    ensures IsSubsequence(DistinctFrom(last, xs), xs)
    ensures forall x :: x in DistinctFrom(last, xs) ==> x in xs
    ensures forall x :: x in xs ==> x in DistinctFrom(last, xs) || last == Some(x)
    decreases |xs|
  {
    if xs != [] {
      var r := DistinctFrom(last, xs);
      assert xs == [xs[0]] + xs[1..];
      if last == Some(xs[0]) {
        DistinctKeepsElements(last, xs[1..]);
        if r != [] { assert IsSubsequence(r, xs[1..]); }
      } else {
        DistinctKeepsElements(Some(xs[0]), xs[1..]);
        assert r[1..] == DistinctFrom(Some(xs[0]), xs[1..]);
      }
    }
  }

  /** Feeding one more text to `distinctUntilChanged` appends it exactly when
      it differs from the remembered value. */
  lemma {:induction false} DistinctSnoc(last: Option<string>, xs: seq<string>, y: string)
    ensures DistinctFrom(last, xs + [y])
      == DistinctFrom(last, xs) + (if LastSeen(last, xs) == Some(y) then [] else [y])
    decreases |xs|
  {
    if xs == [] {
      assert [y][1..] == [];
    } else {
      var ys := xs + [y];
      assert ys[0] == xs[0];
      assert ys[1..] == xs[1..] + [y];
      if last == Some(xs[0]) {
        DistinctSnoc(last, xs[1..], y);
        assert LastSeen(last, xs[1..]) == LastSeen(last, xs);
      } else {
        DistinctSnoc(Some(xs[0]), xs[1..], y);
        assert LastSeen(Some(xs[0]), xs[1..]) == LastSeen(last, xs);
        assert DistinctFrom(last, ys) == [xs[0]] + DistinctFrom(Some(xs[0]), ys[1..]);
        assert DistinctFrom(last, xs) == [xs[0]] + DistinctFrom(Some(xs[0]), xs[1..]);
      }
    }
  }

  /** What `filter$` emits for a sequence of settled inputs: the empty filter
      first, then every trimmed input that passes the length gate, with
      consecutive repeats removed. */
  function FilterStream(inputs: seq<string>): (r: seq<string>)
    ensures 1 <= |r| <= |inputs| + 1 && r[0] == ""
  {
    var kept := KeepAccepted(MapTrim(inputs));
    KeepAcceptedKeepsAllIff(MapTrim(inputs));
    DistinctKeepsElements(None, kept);
    SubsequenceShorter(DistinctFrom(None, kept), kept);
    [""] + DistinctFrom(None, kept)
  }

  /** Every text the gate and `distinctUntilChanged` pass on is a trimmed
      input that passes the gate. */
  lemma {:induction false} LaterFromInputs(inputs: seq<string>, x: string)
    requires x in DistinctFrom(None, KeepAccepted(MapTrim(inputs)))
    ensures IsTrimmed(x) && Accepted(x)
    ensures exists j :: 0 <= j < |inputs| && x == Trim(inputs[j])
  {
    var trimmed := MapTrim(inputs);
    var kept := KeepAccepted(trimmed);
    DistinctKeepsElements(None, kept);
    KeepAcceptedElements(trimmed);
    assert x in kept;
    var j :| 0 <= j < |trimmed| && trimmed[j] == x;
    assert x == Trim(inputs[j]);
  }

  /** Every input whose trimmed text passes the gate reaches the stream. */
  lemma {:induction false} AcceptedReachesStream(inputs: seq<string>, j: int)
    requires 0 <= j < |inputs| && Accepted(Trim(inputs[j]))
    ensures Trim(inputs[j]) in DistinctFrom(None, KeepAccepted(MapTrim(inputs)))
  {
    var trimmed := MapTrim(inputs);
    var kept := KeepAccepted(trimmed);
    DistinctKeepsElements(None, kept);
    KeepAcceptedElements(trimmed);
    assert trimmed[j] in trimmed;
  }

  /** The stream starts with the empty filter, and every later element is
      trimmed and either empty or at least three characters long: a trimmed
      input of one or two characters never shows up. */
  lemma FilterStreamGated(inputs: seq<string>)
    ensures |FilterStream(inputs)| >= 1 && FilterStream(inputs)[0] == ""
    ensures forall i :: 1 <= i < |FilterStream(inputs)| ==>
      IsTrimmed(FilterStream(inputs)[i]) && Accepted(FilterStream(inputs)[i])
    ensures forall i :: 1 <= i < |FilterStream(inputs)| ==> !(1 <= |FilterStream(inputs)[i]| <= 2)
  {
    var later := DistinctFrom(None, KeepAccepted(MapTrim(inputs)));
    var r := FilterStream(inputs);
    forall i | 1 <= i < |r| ensures IsTrimmed(r[i]) && Accepted(r[i]) {
      assert r[i] == later[i - 1];
      LaterFromInputs(inputs, r[i]);
    }
  }

  /** Every later element of the stream is the trimmed text of some input. */
  lemma FilterStreamFromInputs(inputs: seq<string>)
    ensures forall i :: 1 <= i < |FilterStream(inputs)| ==>
      exists j :: 0 <= j < |inputs| && FilterStream(inputs)[i] == Trim(inputs[j])
  {
    var later := DistinctFrom(None, KeepAccepted(MapTrim(inputs)));
    var r := FilterStream(inputs);
    forall i | 1 <= i < |r| ensures exists j :: 0 <= j < |inputs| && r[i] == Trim(inputs[j]) {
      assert r[i] == later[i - 1];
      LaterFromInputs(inputs, r[i]);
    }
  }

  /** Consecutive later elements of the stream differ. The leading empty
      filter is not compared: an accepted empty input may follow it. */
  lemma FilterStreamNoRepeats(inputs: seq<string>)
    ensures forall i :: 1 <= i < |FilterStream(inputs)| - 1 ==>
      FilterStream(inputs)[i] != FilterStream(inputs)[i + 1]
  {
    var later := DistinctFrom(None, KeepAccepted(MapTrim(inputs)));
    var r := FilterStream(inputs);
    assert NoAdjacentRepeats(later);
    forall i | 1 <= i < |r| - 1 ensures r[i] != r[i + 1] {
      assert r[i] == later[i - 1] && r[i + 1] == later[i];
    }
  }

  /** Every input whose trimmed text passes the gate shows up after the
      leading empty filter. */
  lemma FilterStreamComplete(inputs: seq<string>)
    ensures forall j :: 0 <= j < |inputs| && Accepted(Trim(inputs[j])) ==>
      Trim(inputs[j]) in FilterStream(inputs)[1..]
  {
    var r := FilterStream(inputs);
    assert r[1..] == DistinctFrom(None, KeepAccepted(MapTrim(inputs)));
    forall j | 0 <= j < |inputs| && Accepted(Trim(inputs[j])) ensures Trim(inputs[j]) in r[1..] {
      AcceptedReachesStream(inputs, j);
    }
  }

  /** A blank input settling first is emitted right after the leading empty
      filter: `distinctUntilChanged` runs before the empty filter is
      prepended, so it has nothing to compare with. */
  lemma LeadingEmptyMayRepeat()
    ensures FilterStream(["  "]) == ["", ""]
  {
    assert Trim("  ") == "" by {
      assert "  " == "  " + "" + "";
      TrimOfPadded("  ", "", "");
    }
    var trimmed := MapTrim(["  "]);
    assert trimmed == [""];
    assert KeepAccepted(trimmed) == KeepAccepted([]) + [""];
    assert KeepAccepted(trimmed) == [""];
    assert DistinctFrom(None, [""]) == [""] + DistinctFrom(Some(""), []);
  }

  /** The filter value currently in force: the last one `filter$` emitted. */
  function CurrentFilter(inputs: seq<string>): string {
    var s := FilterStream(inputs);
    s[|s| - 1]
  }

  /** The filter in force is either no filter or the trimmed text of some
      settled input, of at least three characters. */
  lemma CurrentFilterGated(inputs: seq<string>)
    ensures var f := CurrentFilter(inputs);
      f == "" || (IsTrimmed(f) && |f| >= 3 && exists j :: 0 <= j < |inputs| && f == Trim(inputs[j]))
  {
    var s := FilterStream(inputs);
    if |s| > 1 {
      FilterStreamGated(inputs);
      FilterStreamFromInputs(inputs);
      assert s[|s| - 1] == CurrentFilter(inputs);
    }
  }

  /** The filter in force is the last accepted trimmed input, or no filter
      when no input was accepted yet. */
  lemma CurrentFilterIsLastAccepted(inputs: seq<string>)
    ensures CurrentFilter(inputs)
      == match LastSeen(None, KeepAccepted(MapTrim(inputs))) case None => "" case Some(t) => t
  {
    var later := DistinctFrom(None, KeepAccepted(MapTrim(inputs)));
    assert FilterStream(inputs) == [""] + later;
  }

  /** The gate and trim stages applied to one more input. */
  lemma AcceptedSnoc(inputs: seq<string>, x: string)
    ensures KeepAccepted(MapTrim(inputs + [x]))
      == KeepAccepted(MapTrim(inputs)) + (if Accepted(Trim(x)) then [Trim(x)] else [])
  {
    var m := MapTrim(inputs + [x]);
    assert m[..|m| - 1] == MapTrim(inputs);
    assert m[|m| - 1] == Trim(x);
  }

  /** One more settled input changes the filter in force exactly when its
      trimmed text passes the gate; it then becomes the filter. */
  lemma {:induction false} CurrentFilterSnoc(inputs: seq<string>, x: string)
    ensures CurrentFilter(inputs + [x])
      == if Accepted(Trim(x)) then Trim(x) else CurrentFilter(inputs)
  {
    CurrentFilterIsLastAccepted(inputs);
    CurrentFilterIsLastAccepted(inputs + [x]);
    AcceptedSnoc(inputs, x);
    var before := KeepAccepted(MapTrim(inputs));
    if Accepted(Trim(x)) {
      assert LastSeen(None, before + [Trim(x)]) == Some(Trim(x));
    } else {
      assert before + [] == before;
    }
  }

  /** A settled input of one or two non-blank characters is ignored: the
      filter in force stays what it was (it does not revert to no filter). */
  lemma {:induction false} ShortInputKeepsFilter(inputs: seq<string>, x: string)
    requires 1 <= |Trim(x)| <= 2
    ensures CurrentFilter(inputs + [x]) == CurrentFilter(inputs)
  {
    CurrentFilterSnoc(inputs, x);
  }

  /** The name test of the product filter: case-insensitive substring match. */
  predicate Matches(p: Product, f: string) {
    Contains(Lower(p.name), Lower(f))
  }

  /** A product matches exactly when the lower-cased filter occurs somewhere
      in its lower-cased name; every product matches the empty filter. */
  lemma MatchesMeans(p: Product, f: string)
    ensures Matches(p, f) <==> exists i :: OccursAt(Lower(p.name), Lower(f), i)
    ensures Matches(p, "")
  {
  }

  /** The products whose name contains the filter, ignoring case, in their
      original order. */
  function FilterProducts(products: seq<Product>, f: string): (r: seq<Product>)
    ensures IsSubsequence(r, products)
    ensures forall k :: 0 <= k < |r| ==> Matches(r[k], f)
    ensures |r| <= |products|
    decreases |products|
  {
    if products == [] then []
    else
      var rest := FilterProducts(products[1..], f);
      assert products == [products[0]] + products[1..];
      if Matches(products[0], f) then
        var r := [products[0]] + rest;
        assert r[1..] == rest;
        r
      else
        assert IsSubsequence(rest, products) by {
          if rest != [] { assert IsSubsequence(rest, products[1..]); }
        }
        rest
  }

  /** A product is kept exactly when it is in the list and matches, and it is
      kept as many times as it occurs in the list. */
  lemma {:induction false} FilterProductsKeepsMatches(products: seq<Product>, f: string)
    ensures forall p :: p in FilterProducts(products, f) <==> p in products && Matches(p, f)
    ensures forall p ::
      multiset(FilterProducts(products, f))[p] == if Matches(p, f) then multiset(products)[p] else 0
    decreases |products|
  {
    if products != [] {
      FilterProductsKeepsMatches(products[1..], f);
      assert products == [products[0]] + products[1..];
      assert multiset(products) == multiset{products[0]} + multiset(products[1..]);
      var rest := FilterProducts(products[1..], f);
      if Matches(products[0], f) {
        assert FilterProducts(products, f) == [products[0]] + rest;
        assert multiset(FilterProducts(products, f)) == multiset{products[0]} + multiset(rest);
      }
    }
  }

  /** The empty filter keeps every product. */
  lemma {:induction false} EmptyFilterKeepsAll(products: seq<Product>)
    ensures FilterProducts(products, "") == products
    decreases |products|
  {
    if products != [] {
      ContainsEmpty(Lower(products[0].name));
      EmptyFilterKeepsAll(products[1..]);
      assert products == [products[0]] + products[1..];
    }
  }

  /** The filter's own case does not matter. */
  lemma {:induction false} FilterIgnoresCase(products: seq<Product>, f: string)
    ensures FilterProducts(products, Lower(f)) == FilterProducts(products, f)
    decreases |products|
  {
    LowerIdempotent(f);
    if products != [] {
      FilterIgnoresCase(products[1..], f);
    }
  }

  /** `filtered$`: whether a filter is in force. */
  predicate IsFiltered(f: string) {
    |f| > 0
  }

  /** `filtered$` is currently true exactly when the last accepted trimmed
      input has at least three characters. */
  lemma FilteredNowIff(inputs: seq<string>)
    ensures IsFiltered(CurrentFilter(inputs)) <==>
      match LastSeen(None, KeepAccepted(MapTrim(inputs)))
      case None => false
      case Some(t) => |t| >= 3
  {
    CurrentFilterIsLastAccepted(inputs);
    var kept := KeepAccepted(MapTrim(inputs));
    if kept != [] {
      KeepAcceptedElements(MapTrim(inputs));
      assert kept[|kept| - 1] in kept;
    }
  }

  /** When `filtered$` says no filter is in force, the whole list is shown. */
  lemma UnfilteredShowsAll(products: seq<Product>, f: string)
    requires !IsFiltered(f)
    ensures FilterProducts(products, f) == products
  {
    EmptyFilterKeepsAll(products);
  }

  /** The filter keeps the whole list exactly when every product matches. */
  lemma {:induction false} FilterKeepsAllIff(products: seq<Product>, f: string)
    ensures |FilterProducts(products, f)| == |products| <==> forall p :: p in products ==> Matches(p, f)
    decreases |products|
  {
    if products != [] {
      var tail := products[1..];
      FilterKeepsAllIff(tail, f);
      assert products == [products[0]] + tail;
      assert forall p :: p in products <==> p == products[0] || p in tail;
      if Matches(products[0], f) {
        assert |FilterProducts(products, f)| == 1 + |FilterProducts(tail, f)|;
      } else {
        assert FilterProducts(products, f) == FilterProducts(tail, f);
        assert products[0] in products;
      }
    }
  }

  /** `productsNumber$` for one filter: how many products the filter lets
      through. It never exceeds the catalog size, reaches it exactly when
      every product matches, and equals it when no filter is in force. */
  function ProductsNumber(products: seq<Product>, f: string): (r: nat)
    ensures r <= |products|
    ensures r == |products| <==> forall p :: p in products ==> Matches(p, f)
    ensures !IsFiltered(f) ==> r == |products|
  {
    FilterKeepsAllIff(products, f);
    EmptyFilterKeepsAll(products);
    |FilterProducts(products, f)|
  }

  /** `filteredProducts$` for a fixed product list that is already loaded
      when the first filter value arrives: one filtered list per filter
      emitted, holding exactly the products that match it. */
  function FilteredStream(products: seq<Product>, inputs: seq<string>): (r: seq<seq<Product>>)
    ensures |r| == |FilterStream(inputs)|
    ensures r[0] == products
    ensures forall i :: 0 <= i < |r| ==> IsSubsequence(r[i], products)
    ensures forall i, p :: 0 <= i < |r| ==>
      (p in r[i] <==> p in products && Matches(p, FilterStream(inputs)[i]))
    ensures forall i, p :: 0 <= i < |r| ==>
      multiset(r[i])[p] == if Matches(p, FilterStream(inputs)[i]) then multiset(products)[p] else 0
  {
    var fs := FilterStream(inputs);
    EmptyFilterKeepsAll(products);
    var r := seq(|fs|, i requires 0 <= i < |fs| => FilterProducts(products, fs[i]));
    forall i | 0 <= i < |r|
      ensures forall p :: p in r[i] <==> p in products && Matches(p, fs[i])
      ensures forall p :: multiset(r[i])[p] == if Matches(p, fs[i]) then multiset(products)[p] else 0
    {
      FilterProductsKeepsMatches(products, fs[i]);
    }
    r
  }

  /** `filtered$`: starts false (no filter) and is true exactly for the
      non-empty filters emitted. */
  function FilteredFlags(inputs: seq<string>): (r: seq<bool>)
    ensures |r| == |FilterStream(inputs)|
    ensures !r[0]
    ensures forall i :: 0 <= i < |r| ==> (r[i] <==> FilterStream(inputs)[i] != "")
    ensures forall i :: 1 <= i < |r| ==> (r[i] <==> |FilterStream(inputs)[i]| >= 3)
  {
    var fs := FilterStream(inputs);
    FilterStreamGated(inputs);
    seq(|fs|, i requires 0 <= i < |fs| => IsFiltered(fs[i]))
  }

  /** `productsNumber$`: 0 before any list is filtered, then the length of
      each filtered list; the first filtered list is the whole catalog. */
  function ProductsNumberStream(products: seq<Product>, inputs: seq<string>): (r: seq<nat>)
    ensures |r| == |FilterStream(inputs)| + 1
    ensures r[0] == 0 && r[1] == |products|
    ensures forall i :: 0 <= i < |r| - 1 ==> r[i + 1] == |FilteredStream(products, inputs)[i]|
    ensures forall i :: 0 <= i < |r| ==> r[i] <= |products|
  {
    var lists := FilteredStream(products, inputs);
    var counts := Lengths(lists);
    forall i | 0 <= i < |lists| ensures counts[i] <= |products| {
      SubsequenceShorter(lists[i], products);
    }
    [0] + counts
  }

  /** The length of each list, in order. */
  function Lengths<T>(lists: seq<seq<T>>): (r: seq<nat>)
    ensures |r| == |lists|
    ensures forall i :: 0 <= i < |r| ==> r[i] == |lists[i]|
  {
    seq(|lists|, i requires 0 <= i < |lists| => |lists[i]|)
  }
}
