/**
 * Go's http.Header as the buffered writer uses it: a map from a header name
 * to its ordered values. Go maps are references, so two writers (or a writer
 * and the sink under it) can hold the same map; the class Header stands for
 * that reference and the functions below for what is done to its contents.
 */
module Headers {

  /** The contents of an http.Header. */
  type HeaderMap = map<string, seq<string>>

  /** One name/value pair met while ranging over a header map. */
  datatype Field = Field(name: string, value: string)

  /** The values under `name`; a missing name has none, as in Go. */
  function Values(h: HeaderMap, name: string): seq<string>
  {
    if name in h then h[name] else []
  }

  /**
   * Header.Get: the first value under `name`, or "" when there is none.
   * Go canonicalises `name` first; this lookup is exact.
   */
  function FirstValue(h: HeaderMap, name: string): (v: string)
    ensures Values(h, name) == [] ==> v == ""
    ensures Values(h, name) != [] ==> v == Values(h, name)[0]
  {
    if name in h && |h[name]| > 0 then h[name][0] else ""
  }

  /** Header.Add: `value` goes after the values already under `name`; nothing else changes. */
  function AppendValue(h: HeaderMap, name: string, value: string): HeaderMap
  {
    h[name := Values(h, name) + [value]]
  }

  /** True when some name carries at least one value. */
  ghost predicate HasValues(h: HeaderMap)
  {
    exists k :: k in h && |h[k]| > 0
  }

  /** A reference to a header map. */
  class Header {
    var m: HeaderMap

    constructor (init: HeaderMap)
      ensures m == init
    {
      m := init;
    }

    /** Header.Add on the shared map. */
    method Add(name: string, value: string)
      modifies this
      ensures m == AppendValue(old(m), name, value)
    {
      m := AppendValue(m, name, value);
    }
  }

  /** What a lookup or a range over a possibly nil header sees: a nil map is empty. */
  function Contents(h: Header?): (r: HeaderMap)
    reads h
    ensures h == null ==> !HasValues(r) && forall name :: FirstValue(r, name) == ""
    ensures h != null ==> r == h.m
  {
    if h == null then map[] else h.m
  }

  // ----- ranging over a map: the fields met, in a visiting order -----

  /** The fields of one name, in the order of its values. */
  function FieldsOf(name: string, values: seq<string>): seq<Field>
  {
    if values == [] then []
    else FieldsOf(name, values[..|values| - 1]) + [Field(name, values[|values| - 1])]
  }

  /** The fields met when the names of `src` are visited in `order`. */
  function Fields(src: HeaderMap, order: seq<string>): seq<Field>
  {
    if order == [] then []
    else
      var name := order[|order| - 1];
      Fields(src, order[..|order| - 1]) + FieldsOf(name, Values(src, name))
  }

  ghost predicate Distinct(order: seq<string>)
  {
    forall i, j :: 0 <= i < j < |order| ==> order[i] != order[j]
  }

  /** `order` visits every name of `names` exactly once: one iteration order of a Go map. */
  ghost predicate Enumerates(order: seq<string>, names: set<string>)
  {
    Distinct(order) && forall k :: k in order <==> k in names
  }

  lemma DistinctSnoc(order: seq<string>, name: string)
    requires Distinct(order) && name !in order
    ensures Distinct(order + [name])
  {
  }

  /** A field of one name is met exactly when it carries one of that name's values. */
  lemma {:induction false} FieldsOfMembership(name: string, values: seq<string>, f: Field)
    ensures f in FieldsOf(name, values) <==> f.name == name && f.value in values
  {
    if values != [] {
      var init, v := values[..|values| - 1], values[|values| - 1];
      FieldsOfMembership(name, init, f);
      assert values == init + [v];
    }
  }

  /** A field is met exactly when its name is visited and it is one of that name's values. */
  lemma {:induction false} FieldsMembership(src: HeaderMap, order: seq<string>, f: Field)
    ensures f in Fields(src, order) <==> f.name in order && f.value in Values(src, f.name)
  {
    if order != [] {
      var init, name := order[..|order| - 1], order[|order| - 1];
      FieldsMembership(src, init, f);
      FieldsOfMembership(name, Values(src, name), f);
      assert order == init + [name];
    }
  }

  lemma FieldsSnoc(src: HeaderMap, order: seq<string>, name: string)
    ensures Fields(src, order + [name]) == Fields(src, order) + FieldsOf(name, Values(src, name))
  {
    assert (order + [name])[..|order|] == order;
  }

  lemma FieldsOfSnoc(name: string, values: seq<string>, i: nat)
    requires i < |values|
    ensures FieldsOf(name, values[..i + 1]) == FieldsOf(name, values[..i]) + [Field(name, values[i])]
  {
    assert values[..i + 1][..i] == values[..i];
  }

  // ----- the merge of writeTo: add a field unless a lookup of its VALUE finds something -----

  /** One step of writeTo's header loop: the guard looks up the value, not the name. */
  function AddIfAbsent(h: HeaderMap, f: Field): HeaderMap
  {
    if FirstValue(h, f.value) == "" then AppendValue(h, f.name, f.value) else h
  }

  /** writeTo's header loop over the fields `fs`, in order. */
  function MergeFields(h: HeaderMap, fs: seq<Field>): HeaderMap
  {
    if fs == [] then h else AddIfAbsent(MergeFields(h, fs[..|fs| - 1]), fs[|fs| - 1])
  }

  lemma MergeFieldsSnoc(h: HeaderMap, fs: seq<Field>, f: Field)
    ensures MergeFields(h, fs + [f]) == AddIfAbsent(MergeFields(h, fs), f)
  {
    assert (fs + [f])[..|fs|] == fs;
  }

  /** The merge over two stretches of fields is the merge over the second, from the result of the first. */
  lemma {:induction false} MergeFieldsAppend(h: HeaderMap, a: seq<Field>, b: seq<Field>)
    ensures MergeFields(h, a + b) == MergeFields(MergeFields(h, a), b)
  {
    if b == [] {
      assert a + b == a;
    } else {
      var init := b[..|b| - 1];
      assert (a + b)[..|a + b| - 1] == a + init;
      MergeFieldsAppend(h, a, init);
    }
  }

  /** `r` keeps every name of `h` and every value of `h`, in place, at the front. */
  ghost predicate Extends(h: HeaderMap, r: HeaderMap)
  {
    forall k :: k in h ==> k in r && h[k] <= r[k]
  }

  lemma ExtendsValues(h: HeaderMap, r: HeaderMap, name: string)
    requires Extends(h, r)
    ensures Values(h, name) <= Values(r, name)
  {
  }

  /** A lookup that found a value still finds the same value in an extension. */
  lemma ExtendsKeepsFirstValue(h: HeaderMap, r: HeaderMap, name: string)
    requires Extends(h, r) && FirstValue(h, name) != ""
    ensures FirstValue(r, name) == FirstValue(h, name)
  {
    ExtendsValues(h, r, name);
  }

  /** The merge never drops or reorders a value the target already held. */
  lemma {:induction false} MergeFieldsExtends(h: HeaderMap, fs: seq<Field>)
    ensures Extends(h, MergeFields(h, fs))
  {
    if fs != [] {
      MergeFieldsExtends(h, fs[..|fs| - 1]);
    }
  }

  /**
   * After the merge every field is accounted for: either its value sits
   * under its name, or a lookup of its value finds something.
   */
  lemma {:induction false} MergeFieldsCovers(h: HeaderMap, fs: seq<Field>)
    ensures forall f :: f in fs ==>
      f.value in Values(MergeFields(h, fs), f.name) || FirstValue(MergeFields(h, fs), f.value) != ""
  {
    if fs != [] {
      var init, last := fs[..|fs| - 1], fs[|fs| - 1];
      var mid := MergeFields(h, init);
      var r := MergeFields(h, fs);
      MergeFieldsCovers(h, init);
      assert r == AddIfAbsent(mid, last);
      assert Extends(mid, r);
      assert fs == init + [last];
      forall f | f in fs
        ensures f.value in Values(r, f.name) || FirstValue(r, f.value) != ""
      {
        if f in init {
          ExtendsValues(mid, r, f.name);
          if FirstValue(mid, f.value) != "" {
            ExtendsKeepsFirstValue(mid, r, f.value);
          }
        } else {
          assert f == last;
          if FirstValue(mid, f.value) != "" {
            assert r == mid;
          } else {
            assert Values(r, f.name) == Values(mid, f.name) + [f.value];
          }
        }
      }
    }
  }

  /**
   * What the merge adds under a name comes after the old values and is made
   * of values of fields with that name whose lookup found nothing in the
   * original target; a name it creates gets at least one value.
   */
  ghost predicate GrowsBy(h: HeaderMap, r: HeaderMap, fs: seq<Field>)
  {
    && Extends(h, r)
    && (forall k :: k in r && k !in h ==> r[k] != [])
    && (forall k :: k in r ==>
          forall v :: v in r[k][|Values(h, k)|..] ==> Field(k, v) in fs && FirstValue(h, v) == "")
  }

  /** A value that GrowsBy accounts for under `k`, after one more added field. */
  lemma GrowsByAddAt(h: HeaderMap, mid: HeaderMap, fs: seq<Field>, f: Field, k: string, v: string)
    requires GrowsBy(h, mid, fs) && FirstValue(h, f.value) == ""
    requires var r := AppendValue(mid, f.name, f.value); k in r && v in r[k][|Values(h, k)|..]
    ensures Field(k, v) in fs + [f] && FirstValue(h, v) == ""
  {
    var r := AppendValue(mid, f.name, f.value);
    var n := |Values(h, k)|;
    if k == f.name {
      ExtendsValues(h, mid, k);
      assert r[k] == Values(mid, k) + [f.value];
      assert r[k][n..] == Values(mid, k)[n..] + [f.value];
      if v != f.value {
        assert v in Values(mid, k)[n..];
        assert k in mid;
      }
    } else {
      assert r[k] == mid[k];
    }
  }

  /** The names GrowsBy speaks of, after one more added field. */
  lemma GrowsByAddKeys(h: HeaderMap, mid: HeaderMap, fs: seq<Field>, f: Field, k: string)
    requires GrowsBy(h, mid, fs)
    ensures var r := AppendValue(mid, f.name, f.value);
      && (k in h ==> k in r && h[k] <= r[k])
      && (k in r && k !in h ==> r[k] != [])
  {
    var r := AppendValue(mid, f.name, f.value);
    if k == f.name {
      assert r[k] == Values(mid, k) + [f.value];
      if k in h {
        assert h[k] <= mid[k];
      }
    } else {
      assert k in r ==> r[k] == mid[k];
    }
  }

  /** Adding a field whose lookup found nothing in the original target keeps GrowsBy. */
  lemma GrowsByAdd(h: HeaderMap, mid: HeaderMap, fs: seq<Field>, f: Field)
    requires GrowsBy(h, mid, fs) && FirstValue(h, f.value) == ""
    ensures GrowsBy(h, AppendValue(mid, f.name, f.value), fs + [f])
  {
    var r := AppendValue(mid, f.name, f.value);
    forall k
      ensures k in h ==> k in r && h[k] <= r[k]
      ensures k in r && k !in h ==> r[k] != []
    {
      GrowsByAddKeys(h, mid, fs, f, k);
    }
    forall k, v | k in r && v in r[k][|Values(h, k)|..]
      ensures Field(k, v) in fs + [f] && FirstValue(h, v) == ""
    {
      GrowsByAddAt(h, mid, fs, f, k, v);
    }
  }

  /** A field more to account for changes nothing GrowsBy says of the values already there. */
  lemma GrowsByMore(h: HeaderMap, r: HeaderMap, fs: seq<Field>, f: Field)
    requires GrowsBy(h, r, fs)
    ensures GrowsBy(h, r, fs + [f])
  {
    assert forall g :: g in fs ==> g in fs + [f];
  }

  lemma {:induction false} MergeFieldsGrowsBy(h: HeaderMap, fs: seq<Field>)
    ensures GrowsBy(h, MergeFields(h, fs), fs)
  {
    if fs != [] {
      var init, last := fs[..|fs| - 1], fs[|fs| - 1];
      var mid := MergeFields(h, init);
      MergeFieldsGrowsBy(h, init);
      assert fs == init + [last];
      if FirstValue(mid, last.value) == "" {
        if FirstValue(h, last.value) != "" {
          ExtendsKeepsFirstValue(h, mid, last.value);
        }
        GrowsByAdd(h, mid, init, last);
      } else {
        GrowsByMore(h, mid, init, last);
      }
    }
  }

  /** When every field's lookup already finds something, the merge changes nothing. */
  lemma {:induction false} MergeFieldsAllGuarded(h: HeaderMap, fs: seq<Field>)
    requires forall f :: f in fs ==> FirstValue(h, f.value) != ""
    ensures MergeFields(h, fs) == h
  {
    if fs != [] {
      var init := fs[..|fs| - 1];
      assert forall f :: f in init ==> f in fs;
      MergeFieldsAllGuarded(h, init);
      assert fs[|fs| - 1] in fs;
    }
  }

  // ----- the header loop of flushResponse: add every field, whatever is there -----

  /** flushResponse's header loop over the fields `fs`, in order. */
  function AddFields(h: HeaderMap, fs: seq<Field>): HeaderMap
  {
    if fs == [] then h
    else
      var f := fs[|fs| - 1];
      AppendValue(AddFields(h, fs[..|fs| - 1]), f.name, f.value)
  }

  lemma AddFieldsSnoc(h: HeaderMap, fs: seq<Field>, f: Field)
    ensures AddFields(h, fs + [f]) == AppendValue(AddFields(h, fs), f.name, f.value)
  {
    assert (fs + [f])[..|fs|] == fs;
  }

  /** The names of `src` that carry at least one value. */
  function ValueNames(src: HeaderMap): set<string>
  {
    set k | k in src && src[k] != []
  }

  /**
   * Every value of `src` after the values of `h` under the same name; a name
   * of `src` without values is not created.
   */
  function AppendAll(h: HeaderMap, src: HeaderMap): HeaderMap
  {
    map k | k in h.Keys + ValueNames(src) :: Values(h, k) + Values(src, k)
  }

  /** The part of `src` whose names are in `names`. */
  function Restrict(src: HeaderMap, names: set<string>): HeaderMap
  {
    map k | k in src && k in names :: src[k]
  }

  /** `values` after the values under `name`; a name given no value is not created. */
  function AppendValues(h: HeaderMap, name: string, values: seq<string>): HeaderMap
  {
    if values == [] then h else h[name := Values(h, name) + values]
  }

  /** Appending one more value to what AppendValues appended. */
  lemma AppendValuesSnoc(h: HeaderMap, name: string, init: seq<string>, v: string)
    ensures AppendValue(AppendValues(h, name, init), name, v) == AppendValues(h, name, init + [v])
  {
    if init == [] {
      assert [] + [v] == [v];
    } else {
      var before := Values(h, name) + init;
      var x := h[name := before];
      assert AppendValues(h, name, init) == x;
      assert Values(x, name) == before;
      assert AppendValue(x, name, v) == x[name := before + [v]];
      UpdateOverwrites(h, name, before, before + [v]);
      assert init + [v] != [];
      assert before + [v] == Values(h, name) + (init + [v]);
      assert AppendValues(h, name, init + [v]) == h[name := before + [v]];
    }
  }

  /** Adding the values of one name appends them all to that name. */
  lemma {:induction false} AddFieldsOneName(h: HeaderMap, name: string, values: seq<string>)
    ensures AddFields(h, FieldsOf(name, values)) == AppendValues(h, name, values)
  {
    if values != [] {
      var init, v := values[..|values| - 1], values[|values| - 1];
      AddFieldsOneName(h, name, init);
      AddFieldsSnoc(h, FieldsOf(name, init), Field(name, v));
      AppendValuesSnoc(h, name, init, v);
      assert init + [v] == values;
    }
  }

  lemma UpdateOverwrites(h: HeaderMap, name: string, a: seq<string>, b: seq<string>)
    ensures h[name := a][name := b] == h[name := b]
  {
  }

  lemma {:induction false} AddFieldsAppend(h: HeaderMap, a: seq<Field>, b: seq<Field>)
    ensures AddFields(h, a + b) == AddFields(AddFields(h, a), b)
  {
    if b == [] {
      assert a + b == a;
    } else {
      var init := b[..|b| - 1];
      assert (a + b)[..|a + b| - 1] == a + init;
      AddFieldsAppend(h, a, init);
    }
  }

  /** One name of AppendAll over the part of `src` named in `names`. */
  lemma AppendAllRestrictAt(h: HeaderMap, src: HeaderMap, names: set<string>, k: string)
    ensures var t := AppendAll(h, Restrict(src, names));
      var added := if k in names then Values(src, k) else [];
      && (k in t <==> k in h || added != [])
      && (k in t ==> t[k] == Values(h, k) + added)
  {
    assert Values(Restrict(src, names), k) == if k in names then Values(src, k) else [];
  }

  lemma AppendAllStepAt(h: HeaderMap, src: HeaderMap, names: set<string>, name: string, k: string)
    requires name !in names
    ensures var r := AppendValues(AppendAll(h, Restrict(src, names)), name, Values(src, name));
      var t := AppendAll(h, Restrict(src, names + {name}));
      (k in r <==> k in t) && (k in r ==> r[k] == t[k])
  {
    var m := AppendAll(h, Restrict(src, names));
    AppendAllRestrictAt(h, src, names, k);
    AppendAllRestrictAt(h, src, names + {name}, k);
    if k == name {
      AppendAllRestrictAt(h, src, names, name);
      assert Values(m, name) == Values(h, name);
    }
  }

  /** Appending the values of one more name to AppendAll of the names before. */
  lemma AppendAllStep(h: HeaderMap, src: HeaderMap, names: set<string>, name: string)
    requires name !in names
    ensures var m := AppendAll(h, Restrict(src, names));
      AppendAll(h, Restrict(src, names + {name})) == AppendValues(m, name, Values(src, name))
  {
    var r := AppendValues(AppendAll(h, Restrict(src, names)), name, Values(src, name));
    var t := AppendAll(h, Restrict(src, names + {name}));
    forall k
      ensures k in r <==> k in t
      ensures k in r ==> r[k] == t[k]
    {
      AppendAllStepAt(h, src, names, name, k);
    }
    assert r == t;
  }

  lemma AppendAllOfNothing(h: HeaderMap, src: HeaderMap)
    ensures AppendAll(h, Restrict(src, {})) == h
  {
    var r := AppendAll(h, Restrict(src, {}));
    assert forall k :: k in r <==> k in h;
    assert forall k :: k in r ==> r[k] == h[k];
  }

  /** Visiting distinct names one by one appends exactly the values of the names visited. */
  lemma {:induction false} AddFieldsIsAppendAll(h: HeaderMap, src: HeaderMap, order: seq<string>, names: set<string>)
    requires Distinct(order)
    requires forall k :: k in names <==> k in order
    ensures AddFields(h, Fields(src, order)) == AppendAll(h, Restrict(src, names))
  {
    if order == [] {
      assert names == {};
      AppendAllOfNothing(h, src);
    } else {
      var init, name := order[..|order| - 1], order[|order| - 1];
      var vs := Values(src, name);
      var before := names - {name};
      assert order == init + [name];
      assert name !in init;
      assert forall k :: k in before <==> k in init;
      assert names == before + {name};
      var m := AppendAll(h, Restrict(src, before));
      FieldsSnoc(src, init, name);
      AddFieldsAppend(h, Fields(src, init), FieldsOf(name, vs));
      AddFieldsIsAppendAll(h, src, init, before);
      AddFieldsOneName(m, name, vs);
      AppendAllStep(h, src, before, name);
    }
  }

  /**
   * flushResponse's header loop does not depend on the order in which Go
   * ranges over the map: whatever the order, every value is appended under
   * its name.
   */
  lemma AppendAllAnyOrder(h: HeaderMap, src: HeaderMap, order: seq<string>)
    requires Enumerates(order, src.Keys)
    ensures AddFields(h, Fields(src, order)) == AppendAll(h, src)
  {
    AddFieldsIsAppendAll(h, src, order, src.Keys);
    assert Restrict(src, src.Keys) == src;
  }

  /**
   * Appending a map to itself, as flushResponse does when the buffered
   * headers are the sink's own map: every value list is repeated and no
   * name is created or dropped.
   */
  lemma AppendAllToItself(h: HeaderMap)
    ensures AppendAll(h, h).Keys == h.Keys
    ensures forall k :: k in h ==> AppendAll(h, h)[k] == h[k] + h[k]
  {
  }

  /** A range over a map with a single name visits just that name. */
  lemma EnumeratesSingle(order: seq<string>, name: string)
    requires Enumerates(order, {name})
    ensures order == [name]
  {
    assert |order| <= 1 || order[0] != order[1];
    assert name in order;
    forall i | 0 <= i < |order|
      ensures order[i] == name
    {
      assert order[i] in order;
    }
  }

  // ----- consequences of the value-keyed guard, on concrete maps -----

  /** A second value under a name already present is still added: the guard is not on the name. */
  lemma GuardIgnoresName()
    ensures MergeFields(map["Content-Type" := ["text/html"]], [Field("Content-Type", "application/json")])
         == map["Content-Type" := ["text/html", "application/json"]]
  {
    var h := map["Content-Type" := ["text/html"]];
    var f := Field("Content-Type", "application/json");
    assert [f][..0] == [];
    assert FirstValue(h, "application/json") == "";
    assert MergeFields(h, [f]) == AppendValue(h, f.name, f.value);
    assert ["text/html"] + ["application/json"] == ["text/html", "application/json"];
  }

  /** A field is dropped when an unrelated name equals its value. */
  lemma GuardLooksUpValue()
    ensures MergeFields(map["gzip" := ["1"]], [Field("Accept-Encoding", "gzip")]) == map["gzip" := ["1"]]
  {
    var f := Field("Accept-Encoding", "gzip");
    assert [f][..0] == [];
  }

  /** The fields of a map of two one-valued names, in each order. */
  lemma FieldsOfTwo(src: HeaderMap, a: string, b: string)
    requires a in src && b in src && |src[a]| == 1 && |src[b]| == 1
    ensures Fields(src, [a, b]) == [Field(a, src[a][0]), Field(b, src[b][0])]
  {
    assert src[a] == [src[a][0]] && src[b] == [src[b][0]];
    assert FieldsOf(a, src[a]) == [Field(a, src[a][0])];
    assert FieldsOf(b, src[b]) == [Field(b, src[b][0])];
    FieldsSnoc(src, [], a);
    assert [a] + [b] == [a, b];
    FieldsSnoc(src, [a], b);
  }

  lemma MergeFieldsTwo(h: HeaderMap, f: Field, g: Field)
    ensures MergeFields(h, [f, g]) == AddIfAbsent(AddIfAbsent(h, f), g)
  {
    MergeFieldsSnoc(h, [], f);
    assert [f] + [g] == [f, g];
    MergeFieldsSnoc(h, [f], g);
  }

  /**
   * The merged headers depend on the order in which Go ranges over the
   * source map: a value that is also a name blocks that name's field only
   * when it was added first.
   */
  lemma MergeDependsOnOrder()
    ensures var src := map["a" := ["b"], "b" := ["x"]];
      MergeFields(map[], Fields(src, ["a", "b"])) != MergeFields(map[], Fields(src, ["b", "a"]))
  {
    var src := map["a" := ["b"], "b" := ["x"]];
    var fa, fb := Field("a", "b"), Field("b", "x");
    FieldsOfTwo(src, "a", "b");
    FieldsOfTwo(src, "b", "a");
    MergeFieldsTwo(map[], fa, fb);
    MergeFieldsTwo(map[], fb, fa);
    var ma := AddIfAbsent(map[], fa);
    assert "a" in ma;
    assert "a" in AddIfAbsent(ma, fb);
    var mb := AddIfAbsent(map[], fb);
    assert mb.Keys == {"b"} && mb["b"][0] == "x";
    assert FirstValue(mb, "b") == "x";
    assert AddIfAbsent(mb, fa) == mb;
  }

  // ----- the header loops, on the shared map -----

  /** Add each of `values`, in order, under `name`. */
  method AddValues(out: Header, name: string, values: seq<string>)
    modifies out
    ensures out.m == AddFields(old(out.m), FieldsOf(name, values))
  {
    ghost var m0 := out.m;
    var i := 0;
    while i < |values|
      invariant 0 <= i <= |values|
      invariant out.m == AddFields(m0, FieldsOf(name, values[..i]))
    {
      FieldsOfSnoc(name, values, i);
      AddFieldsSnoc(m0, FieldsOf(name, values[..i]), Field(name, values[i]));
      out.Add(name, values[i]);
      i := i + 1;
    }
    assert values[..i] == values;
  }

  /**
   * flushResponse's header loop: for every name of `src`, in the map's
   * iteration order (returned as `order`), Add each of its values to `out`.
   */
  method AddEach(out: Header, src: HeaderMap) returns (ghost order: seq<string>)
    modifies out
    ensures Enumerates(order, src.Keys)
    ensures out.m == AppendAll(old(out.m), src)
  {
    ghost var m0 := out.m;
    var names := src.Keys;
    order := [];
    while names != {}
      invariant forall k :: k in names <==> k in src && k !in order
      invariant forall k :: k in order ==> k in src
      invariant Distinct(order)
      invariant out.m == AddFields(m0, Fields(src, order))
      decreases names
    {
      var name :| name in names;
      AddValues(out, name, src[name]);
      FieldsSnoc(src, order, name);
      AddFieldsAppend(m0, Fields(src, order), FieldsOf(name, src[name]));
      DistinctSnoc(order, name);
      order := order + [name];
      names := names - {name};
    }
    AppendAllAnyOrder(m0, src, order);
  }

  /** Add each of `values` under `name` unless a lookup of the value finds something. */
  method MergeValues(target: Header?, name: string, values: seq<string>)
    requires target == null ==> values == []
    modifies target
    ensures Contents(target) == MergeFields(old(Contents(target)), FieldsOf(name, values))
  {
    ghost var m0 := Contents(target);
    var i := 0;
    while i < |values|
      invariant 0 <= i <= |values|
      invariant Contents(target) == MergeFields(m0, FieldsOf(name, values[..i]))
    {
      var v := values[i];
      FieldsOfSnoc(name, values, i);
      MergeFieldsSnoc(m0, FieldsOf(name, values[..i]), Field(name, v));
      if FirstValue(Contents(target), v) == "" {
        target.Add(name, v);
      }
      i := i + 1;
    }
    assert values[..i] == values;
  }

  /**
   * writeTo's header loop: for every name of `src`, in the map's iteration
   * order (returned as `order`), Add each value to `target` unless a lookup
   * of the value finds something there. Adding to a nil map panics in Go.
   */
  method MergeEach(target: Header?, src: HeaderMap) returns (ghost order: seq<string>)
    requires target == null ==> !HasValues(src)
    modifies target
    ensures Enumerates(order, src.Keys)
    ensures Contents(target) == MergeFields(old(Contents(target)), Fields(src, order))
  {
    ghost var m0 := Contents(target);
    var names := src.Keys;
    order := [];
    while names != {}
      invariant forall k :: k in names <==> k in src && k !in order
      invariant forall k :: k in order ==> k in src
      invariant Distinct(order)
      invariant Contents(target) == MergeFields(m0, Fields(src, order))
      decreases names
    {
      var name :| name in names;
      assert target == null ==> src[name] == [];
      MergeValues(target, name, src[name]);
      FieldsSnoc(src, order, name);
      MergeFieldsAppend(m0, Fields(src, order), FieldsOf(name, src[name]));
      DistinctSnoc(order, name);
      order := order + [name];
      names := names - {name};
    }
  }
}
