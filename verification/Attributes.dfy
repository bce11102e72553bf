/**
 Attr objects and the attributes they stand for (src/bindings/Attributes.cpp, with the attribute writes of
 src/bindings/Realm.cpp): identity over every run of the operations.
 */
module Attributes {
  import opened Wrappers

  /** What an attribute is known by. */
  datatype Name = Name(ns: string, local: string)

  /** An attribute of an element. */
  datatype Attribute = Attribute(name: Name, prefix: string, value: string)

  /** An Attr object: its owner, if it has one, and the value it keeps while it has none. */
  datatype AttrObject = AttrObject(owner: Option<nat>, name: Name, prefix: string, value: string)

  /** An element: its attributes, and the Attr objects made for them. */
  datatype Element = Element(attributes: seq<Attribute>, attrs: seq<nat>)

  datatype Dom = Dom(elements: seq<Element>, objects: seq<AttrObject>)

  function Qualified(prefix: string, local: string): string { if prefix == "" then local else prefix + ":" + local }

  /** The first attribute of a name. */
  function IndexOf(s: seq<Attribute>, n: Name): (r: Option<nat>)
    ensures r.Some? ==> r.value < |s| && s[r.value].name == n
    ensures r.None? <==> forall i :: 0 <= i < |s| ==> s[i].name != n
    decreases |s|
  {
    if s == [] then None
    else if s[0].name == n then Some(0)
    else var r := IndexOf(s[1..], n); if r.None? then None else Some(r.value + 1)
  }

  /** The first attribute of a qualified name. */
  function IndexQualified(s: seq<Attribute>, q: string): (r: Option<nat>)
    ensures r.Some? ==> r.value < |s| && Qualified(s[r.value].prefix, s[r.value].name.local) == q
    ensures r.None? <==> forall i :: 0 <= i < |s| ==> Qualified(s[i].prefix, s[i].name.local) != q
    decreases |s|
  {
    if s == [] then None
    else if Qualified(s[0].prefix, s[0].name.local) == q then Some(0)
    else var r := IndexQualified(s[1..], q); if r.None? then None else Some(r.value + 1)
  }

  /** The place in a map's list of the object of a name. */
  function Place(d: Dom, attrs: seq<nat>, n: Name): (r: Option<nat>)
    ensures r.Some? ==> r.value < |attrs| && attrs[r.value] < |d.objects| && d.objects[attrs[r.value]].name == n
    ensures r.None? <==> forall i :: 0 <= i < |attrs| && attrs[i] < |d.objects| ==> d.objects[attrs[i]].name != n
    decreases |attrs|
  {
    if attrs == [] then None
    else if attrs[0] < |d.objects| && d.objects[attrs[0]].name == n then Some(0)
    else var r := Place(d, attrs[1..], n); if r.None? then None else Some(r.value + 1)
  }

  /** `owner_element`: the element an object stands for an attribute of, while it does. */
  function OwnerElement(d: Dom, a: nat): (r: Option<nat>)
    ensures r.Some? ==> r.value < |d.elements|
  {
    if a < |d.objects| && d.objects[a].owner.Some? && d.objects[a].owner.value < |d.elements|
       && IndexOf(d.elements[d.objects[a].owner.value].attributes, d.objects[a].name).Some? then d.objects[a].owner
    else None
  }

  /** The value a script reads. */
  function Value(d: Dom, a: nat): string
    requires a < |d.objects|
  {
    var e := OwnerElement(d, a);
    if e.None? then d.objects[a].value
    else
      var s := d.elements[e.value].attributes;
      s[IndexOf(s, d.objects[a].name).value].value
  }

  /** What an operation answers: an object, none, or an error. */
  datatype Answer = Object(a: nat) | Null | InUse | NotFound

  datatype Result = Result(dom: Dom, answer: Answer)

  /** `attr_at`: the object of an attribute, made the first time it is asked for. */
  function AttrAt(d: Dom, e: nat, i: nat): (r: Result)
    requires e < |d.elements|
    ensures |r.dom.elements| == |d.elements| && |r.dom.objects| >= |d.objects|
  {
    var x := d.elements[e];
    if i >= |x.attributes| then Result(d, Null)
    else
      var t := x.attributes[i];
      var p := Place(d, x.attrs, t.name);
      if p.Some? then Result(d, Object(x.attrs[p.value]))
      else
        var a := |d.objects|;
        Result(Dom(d.elements[e := x.(attrs := x.attrs + [a])], d.objects + [AttrObject(Some(e), t.name, t.prefix, "")]), Object(a))
  }

  /** `let_go`: the object of a name leaves the map, with no owner, and keeps the value. */
  function LetGo(d: Dom, e: nat, n: Name, value: string): (r: Dom)
    requires e < |d.elements|
    ensures |r.elements| == |d.elements| && |r.objects| == |d.objects|
  {
    var x := d.elements[e];
    var p := Place(d, x.attrs, n);
    if p.None? then d
    else
      var a := x.attrs[p.value];
      Dom(d.elements[e := x.(attrs := x.attrs[..p.value] + x.attrs[p.value + 1..])],
          d.objects[a := d.objects[a].(owner := None, value := value)])
  }

  /** `set_attribute_ns`: the value of the attribute there, or one more attribute. */
  function SetNs(d: Dom, e: nat, n: Name, prefix: string, value: string): (r: Dom)
    requires e < |d.elements|
    ensures |r.elements| == |d.elements| && r.objects == d.objects
  {
    var x := d.elements[e];
    var i := IndexOf(x.attributes, n);
    var s := if i.Some? then x.attributes[i.value := x.attributes[i.value].(value := value)]
             else x.attributes + [Attribute(n, prefix, value)];
    d.(elements := d.elements[e := x.(attributes := s)])
  }

  /** `set_attribute`: by the qualified name. */
  function Set(d: Dom, e: nat, q: string, value: string): (r: Dom)
    requires e < |d.elements|
    ensures |r.elements| == |d.elements| && r.objects == d.objects
  {
    var x := d.elements[e];
    var i := IndexQualified(x.attributes, q);
    var s := if i.Some? then x.attributes[i.value := x.attributes[i.value].(value := value)]
             else x.attributes + [Attribute(Name("", q), "", value)];
    d.(elements := d.elements[e := x.(attributes := s)])
  }

  /** `erase_attribute`: and its object lets go. */
  function Erase(d: Dom, e: nat, i: nat): (r: Dom)
    requires e < |d.elements| && i < |d.elements[e].attributes|
    ensures |r.elements| == |d.elements| && |r.objects| == |d.objects|
  {
    var x := d.elements[e];
    var t := x.attributes[i];
    var y := x.(attributes := x.attributes[..i] + x.attributes[i + 1..]);
    LetGo(d.(elements := d.elements[e := y]), e, t.name, t.value)
  }

  function Remove(d: Dom, e: nat, q: string): (r: Dom)
    requires e < |d.elements|
    ensures |r.elements| == |d.elements| && |r.objects| == |d.objects|
  {
    var i := IndexQualified(d.elements[e].attributes, q);
    if i.None? then d else Erase(d, e, i.value)
  }

  function RemoveNs(d: Dom, e: nat, n: Name): (r: Dom)
    requires e < |d.elements|
    ensures |r.elements| == |d.elements| && |r.objects| == |d.objects|
  {
    var i := IndexOf(d.elements[e].attributes, n);
    if i.None? then d else Erase(d, e, i.value)
  }

  function SetPrefix(d: Dom, e: nat, n: Name, prefix: string): (r: Dom)
    requires e < |d.elements|
    ensures |r.elements| == |d.elements| && r.objects == d.objects
  {
    var x := d.elements[e];
    var i := IndexOf(x.attributes, n);
    if i.None? then d
    else d.(elements := d.elements[e := x.(attributes := x.attributes[i.value := x.attributes[i.value].(prefix := prefix)])])
  }

  /** An object put in a map, as its owner's. */
  function TakeIn(d: Dom, e: nat, a: nat): (r: Dom)
    requires e < |d.elements| && a < |d.objects|
    ensures |r.elements| == |d.elements| && |r.objects| == |d.objects|
  {
    Dom(d.elements[e := d.elements[e].(attrs := d.elements[e].attrs + [a])],
        d.objects[a := d.objects[a].(owner := Some(e), value := "")])
  }

  /** `set_attribute_node`: `a` takes over the entry of its name, or adds one; the answer is the object that held the entry. */
  function SetNode(d: Dom, e: nat, a: nat): Result
    requires e < |d.elements| && a < |d.objects|
  {
    var value := Value(d, a);
    var holder := OwnerElement(d, a);
    if holder.Some? then Result(d, if holder.value != e then InUse else Object(a))
    else
      var o := d.objects[a];
      var i := IndexOf(d.elements[e].attributes, o.name);
      var r := if i.None? then Result(d, Null) else AttrAt(d, e, i.value);
      if r.answer == Object(a) then Result(r.dom, Object(a))
      else
        var was := if i.None? then "" else d.elements[e].attributes[i.value].value;
        var taken := TakeIn(LetGo(r.dom, e, o.name, was), e, a);
        Result(SetPrefix(SetNs(taken, e, o.name, o.prefix, value), e, o.name, o.prefix), r.answer)
  }

  /** `remove_attribute_node`. */
  function RemoveNode(d: Dom, e: nat, a: nat): Result
    requires e < |d.elements| && a < |d.objects|
  {
    if OwnerElement(d, a) != Some(e) then Result(d, NotFound)
    else Result(RemoveNs(d, e, d.objects[a].name), Object(a))
  }

  /** Setting the value of an object: the attribute's, while it stands for one, else its own. */
  function SetValue(d: Dom, a: nat, value: string): Dom
    requires a < |d.objects|
  {
    var e := OwnerElement(d, a);
    var o := d.objects[a];
    if e.Some? then SetNs(d, e.value, o.name, o.prefix, value) else d.(objects := d.objects[a := o.(value := value)])
  }

  // What always holds.

  ghost predicate NamesOnce(s: seq<Attribute>) { forall i, j :: 0 <= i < j < |s| ==> s[i].name != s[j].name }

  /** A name with no namespace has no prefix; what is checked where names are given. */
  predicate PrefixOk(n: Name, prefix: string) { n.ns == "" ==> prefix == "" }

  ghost predicate AttributesOk(s: seq<Attribute>) {
    NamesOnce(s) && forall i :: 0 <= i < |s| ==> PrefixOk(s[i].name, s[i].prefix)
  }

  /** The k-th in a map is owned by its element and stands for one of its attributes. */
  predicate InMap(d: Dom, e: nat, a: nat)
    requires e < |d.elements|
  {
    a < |d.objects| && d.objects[a].owner == Some(e) && IndexOf(d.elements[e].attributes, d.objects[a].name).Some?
  }

  ghost predicate MapOk(d: Dom, e: nat)
    requires e < |d.elements|
  {
    var m := d.elements[e].attrs;
    && (forall k :: 0 <= k < |m| ==> InMap(d, e, m[k]))
    && (forall j, k :: 0 <= j < k < |m| ==> m[j] < |d.objects| && m[k] < |d.objects| && d.objects[m[j]].name != d.objects[m[k]].name)
  }

  /** An object with an owner is in its owner's map. */
  predicate OwnedOk(d: Dom, a: nat)
    requires a < |d.objects|
  {
    && PrefixOk(d.objects[a].name, d.objects[a].prefix)
    && (d.objects[a].owner.Some? ==> d.objects[a].owner.value < |d.elements| && a in d.elements[d.objects[a].owner.value].attrs)
  }

  ghost predicate Inv(d: Dom) {
    && (forall e :: 0 <= e < |d.elements| ==> AttributesOk(d.elements[e].attributes))
    && (forall e :: 0 <= e < |d.elements| ==> MapOk(d, e))
    && (forall a :: 0 <= a < |d.objects| ==> OwnedOk(d, a))
  }

  /** The element with other attributes. */
  function WithAttributes(d: Dom, e: nat, s: seq<Attribute>): (r: Dom)
    requires e < |d.elements|
    ensures |r.elements| == |d.elements| && r.objects == d.objects
  {
    d.(elements := d.elements[e := d.elements[e].(attributes := s)])
  }

  predicate Has(s: seq<Attribute>, n: Name) { IndexOf(s, n).Some? }

  /** Attributes may change as long as none goes that an object stands for. */
  lemma AttributesChange(d: Dom, e: nat, s: seq<Attribute>)
    requires Inv(d) && e < |d.elements| && AttributesOk(s)
    requires forall k :: 0 <= k < |d.elements[e].attrs| && d.elements[e].attrs[k] < |d.objects| ==> Has(s, d.objects[d.elements[e].attrs[k]].name)
    ensures Inv(WithAttributes(d, e, s))
  {
    hide IndexOf, PrefixOk, NamesOnce;
    var x := WithAttributes(d, e, s);
    forall f | 0 <= f < |x.elements|
      ensures MapOk(x, f) && AttributesOk(x.elements[f].attributes)
    {
      assert MapOk(d, f);
      assert x.elements[f].attrs == d.elements[f].attrs;
      forall k | 0 <= k < |x.elements[f].attrs|
        ensures InMap(x, f, x.elements[f].attrs[k])
      {
        assert InMap(d, f, d.elements[f].attrs[k]);
      }
    }
    forall a | 0 <= a < |x.objects|
      ensures OwnedOk(x, a)
    {
      assert OwnedOk(d, a);
    }
  }

  lemma MapHas(d: Dom, e: nat, k: nat)
    requires Inv(d) && e < |d.elements| && k < |d.elements[e].attrs|
    ensures var a := d.elements[e].attrs[k];
            a < |d.objects| && d.objects[a].owner == Some(e) && Has(d.elements[e].attributes, d.objects[a].name)
  {
    hide IndexOf;
    assert MapOk(d, e) && InMap(d, e, d.elements[e].attrs[k]);
  }

  lemma HasAt(s: seq<Attribute>, i: nat)
    requires i < |s|
    ensures Has(s, s[i].name)
  {
  }

  /** What is changed in place keeps its name. */
  lemma SameNames(s: seq<Attribute>, i: nat, t: Attribute, n: Name)
    requires i < |s| && t.name == s[i].name
    ensures Has(s[i := t], n) <==> Has(s, n)
  {
    if Has(s, n) {
      HasAt(s[i := t], IndexOf(s, n).value);
    }
    if Has(s[i := t], n) {
      HasAt(s, IndexOf(s[i := t], n).value);
    }
  }

  lemma InPlaceKeeps(d: Dom, e: nat, i: nat, t: Attribute)
    requires Inv(d) && e < |d.elements| && i < |d.elements[e].attributes|
    requires t.name == d.elements[e].attributes[i].name && PrefixOk(t.name, t.prefix)
    ensures Inv(WithAttributes(d, e, d.elements[e].attributes[i := t]))
  {
    hide IndexOf;
    var s := d.elements[e].attributes;
    assert AttributesOk(s[i := t]);
    forall k | 0 <= k < |d.elements[e].attrs|
      ensures d.elements[e].attrs[k] < |d.objects| && Has(s[i := t], d.objects[d.elements[e].attrs[k]].name)
    {
      MapHas(d, e, k);
      SameNames(s, i, t, d.objects[d.elements[e].attrs[k]].name);
    }
    hide Inv;
    AttributesChange(d, e, s[i := t]);
  }

  lemma AppendKeeps(d: Dom, e: nat, t: Attribute)
    requires Inv(d) && e < |d.elements| && !Has(d.elements[e].attributes, t.name) && PrefixOk(t.name, t.prefix)
    ensures Inv(WithAttributes(d, e, d.elements[e].attributes + [t]))
  {
    var s := d.elements[e].attributes;
    AppendNames(s, t);
    hide IndexOf;
    forall k | 0 <= k < |d.elements[e].attrs|
      ensures d.elements[e].attrs[k] < |d.objects| && Has(s + [t], d.objects[d.elements[e].attrs[k]].name)
    {
      MapHas(d, e, k);
      HasMore(s, t, d.objects[d.elements[e].attrs[k]].name);
    }
    hide Inv;
    AttributesChange(d, e, s + [t]);
  }

  lemma AppendNames(s: seq<Attribute>, t: Attribute)
    requires AttributesOk(s) && !Has(s, t.name) && PrefixOk(t.name, t.prefix)
    ensures AttributesOk(s + [t])
  {
  }

  lemma HasMore(s: seq<Attribute>, t: Attribute, n: Name)
    ensures Has(s + [t], n) <==> Has(s, n) || n == t.name
  {
    if Has(s, n) {
      assert (s + [t])[IndexOf(s, n).value] == s[IndexOf(s, n).value];
    }
    if n == t.name {
      assert (s + [t])[|s|] == t;
    }
    if Has(s + [t], n) {
      var i := IndexOf(s + [t], n).value;
      assert i < |s| ==> s[i] == (s + [t])[i];
    }
  }

  lemma SetNsKeeps(d: Dom, e: nat, n: Name, prefix: string, value: string)
    requires Inv(d) && e < |d.elements| && PrefixOk(n, prefix)
    ensures Inv(SetNs(d, e, n, prefix, value)) && Has(SetNs(d, e, n, prefix, value).elements[e].attributes, n)
  {
    hide IndexOf, PrefixOk;
    var s := d.elements[e].attributes;
    assert AttributesOk(s);
    var i := IndexOf(s, n);
    if i.Some? {
      InPlaceKeeps(d, e, i.value, s[i.value].(value := value));
      SameNames(s, i.value, s[i.value].(value := value), n);
    } else {
      AppendKeeps(d, e, Attribute(n, prefix, value));
      HasMore(s, Attribute(n, prefix, value), n);
    }
    hide Inv;
  }

  lemma SetPrefixKeeps(d: Dom, e: nat, n: Name, prefix: string)
    requires Inv(d) && e < |d.elements| && PrefixOk(n, prefix)
    ensures Inv(SetPrefix(d, e, n, prefix))
  {
    hide IndexOf, PrefixOk;
    var s := d.elements[e].attributes;
    var i := IndexOf(s, n);
    if i.Some? {
      InPlaceKeeps(d, e, i.value, s[i.value].(prefix := prefix));
    }
    hide Inv;
  }

  lemma SetKeeps(d: Dom, e: nat, q: string, value: string)
    requires Inv(d) && e < |d.elements|
    ensures Inv(Set(d, e, q, value))
  {
    var s := d.elements[e].attributes;
    assert AttributesOk(s);
    hide IndexOf;
    var i := IndexQualified(s, q);
    if i.Some? {
      assert PrefixOk(s[i.value].name, s[i.value].prefix);
      InPlaceKeeps(d, e, i.value, s[i.value].(value := value));
    } else {
      assert forall k :: 0 <= k < |s| ==> PrefixOk(s[k].name, s[k].prefix) && Qualified(s[k].prefix, s[k].name.local) != q;
      assert !Has(s, Name("", q));
      AppendKeeps(d, e, Attribute(Name("", q), "", value));
    }
    hide Inv;
  }

  lemma AttrAtKeeps(d: Dom, e: nat, i: nat)
    requires Inv(d) && e < |d.elements|
    ensures Inv(AttrAt(d, e, i).dom)
  {
    var x := d.elements[e];
    if i < |x.attributes| && Place(d, x.attrs, x.attributes[i].name).None? {
      NewObject(d, e, i);
    }
    hide Inv;
  }

  lemma NewObject(d: Dom, e: nat, i: nat)
    requires Inv(d) && e < |d.elements| && i < |d.elements[e].attributes|
    requires Place(d, d.elements[e].attrs, d.elements[e].attributes[i].name).None?
    ensures Inv(AttrAt(d, e, i).dom)
  {
    var x, t := AttrAt(d, e, i).dom, d.elements[e].attributes[i];
    HasAt(d.elements[e].attributes, i);
    hide IndexOf, Place;
    assert AttributesOk(d.elements[e].attributes) && PrefixOk(t.name, t.prefix);
    hide PrefixOk, NamesOnce;
    forall f | 0 <= f < |x.elements|
      ensures AttributesOk(x.elements[f].attributes) && MapOk(x, f)
    {
      assert MapOk(d, f) && AttributesOk(d.elements[f].attributes);
      NewInMap(d, e, i, f);
    }
    forall a | 0 <= a < |x.objects|
      ensures OwnedOk(x, a)
    {
      if a < |d.objects| {
        assert OwnedOk(d, a) && x.objects[a] == d.objects[a];
      } else {
        assert x.elements[e].attrs[|d.elements[e].attrs|] == a;
      }
    }
  }

  lemma NewInMap(d: Dom, e: nat, i: nat, f: nat)
    requires e < |d.elements| && i < |d.elements[e].attributes| && f < |d.elements| && MapOk(d, f)
    requires Place(d, d.elements[e].attrs, d.elements[e].attributes[i].name).None?
    requires Has(d.elements[e].attributes, d.elements[e].attributes[i].name)
    ensures MapOk(AttrAt(d, e, i).dom, f)
  {
    hide IndexOf, Place;
    var x := AttrAt(d, e, i).dom;
    var m, o := x.elements[f].attrs, d.elements[f].attrs;
    assert forall a :: 0 <= a < |d.objects| ==> x.objects[a] == d.objects[a];
    forall k | 0 <= k < |m|
      ensures InMap(x, f, m[k])
    {
      if k < |o| {
        assert InMap(d, f, o[k]) && m[k] == o[k];
      }
    }
    forall j, k | 0 <= j < k < |m|
      ensures m[j] < |x.objects| && m[k] < |x.objects| && x.objects[m[j]].name != x.objects[m[k]].name
    {
      assert InMap(x, f, m[j]) && InMap(x, f, m[k]);
      assert InMap(d, f, o[j]) && m[j] == o[j];
    }
  }

  /** Letting go keeps what holds, and leaves no object of that name in the map. */
  lemma LetGoKeeps(d: Dom, e: nat, n: Name, value: string)
    requires Inv(d) && e < |d.elements|
    ensures Inv(LetGo(d, e, n, value)) && Place(LetGo(d, e, n, value), LetGo(d, e, n, value).elements[e].attrs, n) == None
  {
    var x := d.elements[e];
    var p := Place(d, x.attrs, n);
    if p.Some? {
      LetGoMaps(d, e, n, value);
      LetGoOwned(d, e, n, value);
    }
  }

  lemma LetGoMaps(d: Dom, e: nat, n: Name, value: string)
    requires Inv(d) && e < |d.elements| && Place(d, d.elements[e].attrs, n).Some?
    ensures var x := LetGo(d, e, n, value);
            (forall f :: 0 <= f < |x.elements| ==> AttributesOk(x.elements[f].attributes) && MapOk(x, f))
            && Place(x, x.elements[e].attrs, n) == None
  {
    var x := LetGo(d, e, n, value);
    assert forall f :: 0 <= f < |x.elements| ==> x.elements[f].attributes == d.elements[f].attributes;
    LetGoOwn(d, e, n, value);
    forall f | 0 <= f < |x.elements|
      ensures AttributesOk(x.elements[f].attributes) && MapOk(x, f)
    {
      assert MapOk(d, f) && AttributesOk(d.elements[f].attributes);
      if f != e {
        LetGoOther(d, e, n, value, f);
      }
    }
    hide Inv, MapOk, LetGo;
  }

  function Skip(k: nat, p: nat): nat { if k < p then k else k + 1 }

  lemma Skipped(o: seq<nat>, p: nat, k: nat)
    requires p < |o| && k < |o| - 1
    ensures (o[..p] + o[p + 1..])[k] == o[Skip(k, p)] && Skip(k, p) < |o| && Skip(k, p) != p
  {
  }

  /** The map that lets go: one object less. */
  lemma LetGoOwn(d: Dom, e: nat, n: Name, value: string)
    requires e < |d.elements| && MapOk(d, e) && Place(d, d.elements[e].attrs, n).Some?
    ensures var x := LetGo(d, e, n, value); MapOk(x, e) && Place(x, x.elements[e].attrs, n) == None
  {
    var x, p := LetGo(d, e, n, value), Place(d, d.elements[e].attrs, n).value;
    var m, o := x.elements[e].attrs, d.elements[e].attrs;
    assert m == o[..p] + o[p + 1..] && x.elements[e].attributes == d.elements[e].attributes;
    assert |x.objects| == |d.objects| && d.objects[o[p]].name == n;
    assert forall a :: 0 <= a < |d.objects| && a != o[p] ==> x.objects[a] == d.objects[a];
    hide IndexOf, LetGo;
    forall k | 0 <= k < |m|
      ensures InMap(x, e, m[k]) && d.objects[m[k]].name == x.objects[m[k]].name != n
    {
      Skipped(o, p, k);
      var q := Skip(k, p);
      assert InMap(d, e, o[q]);
      OtherName(d, e, q, p);
    }
    forall j, k | 0 <= j < k < |m|
      ensures x.objects[m[j]].name != x.objects[m[k]].name
    {
      Skipped(o, p, j);
      Skipped(o, p, k);
      OtherName(d, e, Skip(j, p), Skip(k, p));
    }
    hide Skip;
  }

  lemma OtherName(d: Dom, e: nat, q: nat, r: nat)
    requires e < |d.elements| && MapOk(d, e) && q < |d.elements[e].attrs| && r < |d.elements[e].attrs| && q != r
    ensures var m := d.elements[e].attrs;
            m[q] < |d.objects| && m[r] < |d.objects| && m[q] != m[r] && d.objects[m[q]].name != d.objects[m[r]].name
  {
    hide IndexOf;
    if r < q {
      OtherName(d, e, r, q);
    }
  }

  /** Another map is as it was. */
  lemma LetGoOther(d: Dom, e: nat, n: Name, value: string, f: nat)
    requires e < |d.elements| && MapOk(d, e) && f < |d.elements| && f != e && MapOk(d, f)
    requires Place(d, d.elements[e].attrs, n).Some?
    ensures MapOk(LetGo(d, e, n, value), f)
  {
    var x, p := LetGo(d, e, n, value), Place(d, d.elements[e].attrs, n).value;
    var m := d.elements[f].attrs;
    hide IndexOf, Place;
    assert InMap(d, e, d.elements[e].attrs[p]);
    forall k | 0 <= k < |m|
      ensures InMap(x, f, m[k]) && x.objects[m[k]] == d.objects[m[k]]
    {
      assert InMap(d, f, m[k]);
    }
  }

  lemma LetGoOwned(d: Dom, e: nat, n: Name, value: string)
    requires Inv(d) && e < |d.elements| && Place(d, d.elements[e].attrs, n).Some?
    ensures var x := LetGo(d, e, n, value); forall a :: 0 <= a < |x.objects| ==> OwnedOk(x, a)
  {
    var x, p := LetGo(d, e, n, value), Place(d, d.elements[e].attrs, n).value;
    hide IndexOf, Place, PrefixOk;
    forall a | 0 <= a < |x.objects|
      ensures OwnedOk(x, a)
    {
      assert OwnedOk(d, a);
      var o := d.objects[a].owner;
      if o.Some? && a != d.elements[e].attrs[p] {
        var m := d.elements[o.value].attrs;
        var k :| 0 <= k < |m| && m[k] == a;
        if o.value == e {
          assert x.elements[e].attrs[if k < p then k else k - 1] == a;
        }
      }
    }
  }

  /** An attribute no object stands for may go. */
  lemma DropKeeps(d: Dom, e: nat, i: nat)
    requires Inv(d) && e < |d.elements| && i < |d.elements[e].attributes|
    requires Place(d, d.elements[e].attrs, d.elements[e].attributes[i].name) == None
    ensures var s := d.elements[e].attributes; Inv(WithAttributes(d, e, s[..i] + s[i + 1..]))
  {
    var s := d.elements[e].attributes;
    var t := s[..i] + s[i + 1..];
    assert AttributesOk(s);
    DropNames(s, i);
    hide IndexOf;
    forall k | 0 <= k < |d.elements[e].attrs| && d.elements[e].attrs[k] < |d.objects|
      ensures Has(t, d.objects[d.elements[e].attrs[k]].name)
    {
      MapHas(d, e, k);
      DropHas(s, i, d.objects[d.elements[e].attrs[k]].name);
    }
    hide Inv;
    AttributesChange(d, e, t);
  }

  lemma DropNames(s: seq<Attribute>, i: nat)
    requires AttributesOk(s) && i < |s|
    ensures AttributesOk(s[..i] + s[i + 1..])
  {
    var t := s[..i] + s[i + 1..];
    forall j, k | 0 <= j < k < |t|
      ensures t[j].name != t[k].name
    {
      var q, r := if j < i then j else j + 1, if k < i then k else k + 1;
      assert t[j] == s[q] && t[k] == s[r];
    }
  }

  lemma DropHas(s: seq<Attribute>, i: nat, n: Name)
    requires NamesOnce(s) && i < |s|
    ensures Has(s[..i] + s[i + 1..], n) <==> Has(s, n) && n != s[i].name
  {
    var t := s[..i] + s[i + 1..];
    if Has(s, n) && n != s[i].name {
      var k := IndexOf(s, n).value;
      HasAt(t, if k < i then k else k - 1);
    }
    if Has(t, n) {
      var k := IndexOf(t, n).value;
      HasAt(s, if k < i then k else k + 1);
    }
  }

  lemma EraseIs(d: Dom, e: nat, i: nat)
    requires e < |d.elements| && i < |d.elements[e].attributes|
    ensures var s := d.elements[e].attributes;
            Erase(d, e, i) == WithAttributes(LetGo(d, e, s[i].name, s[i].value), e, s[..i] + s[i + 1..])
  {
    var s := d.elements[e].attributes;
    var y := WithAttributes(d, e, s[..i] + s[i + 1..]);
    SamePlace(d, y, d.elements[e].attrs, s[i].name);
    hide Place, IndexOf;
  }

  lemma {:induction false} SamePlace(d: Dom, x: Dom, attrs: seq<nat>, n: Name)
    requires d.objects == x.objects
    ensures Place(d, attrs, n) == Place(x, attrs, n)
    decreases |attrs|
  {
    if attrs != [] {
      SamePlace(d, x, attrs[1..], n);
    }
  }

  lemma EraseKeeps(d: Dom, e: nat, i: nat)
    requires Inv(d) && e < |d.elements| && i < |d.elements[e].attributes|
    ensures Inv(Erase(d, e, i))
  {
    var s := d.elements[e].attributes;
    EraseIs(d, e, i);
    LetGoKeeps(d, e, s[i].name, s[i].value);
    LetGoAttributes(d, e, s[i].name, s[i].value);
    hide Inv, LetGo, Erase, Place;
    DropKeeps(LetGo(d, e, s[i].name, s[i].value), e, i);
  }

  lemma LetGoAttributes(d: Dom, e: nat, n: Name, value: string)
    requires e < |d.elements|
    ensures LetGo(d, e, n, value).elements[e].attributes == d.elements[e].attributes
  {
  }

  /** An object with no owner is in no map. */
  lemma FreeNowhere(d: Dom, a: nat, e: nat)
    requires Inv(d) && a < |d.objects| && d.objects[a].owner == None && e < |d.elements|
    ensures a !in d.elements[e].attrs
  {
    hide IndexOf;
    assert MapOk(d, e);
    forall k | 0 <= k < |d.elements[e].attrs|
      ensures d.elements[e].attrs[k] != a
    {
      assert InMap(d, e, d.elements[e].attrs[k]);
    }
  }

  lemma TakeInKeeps(d: Dom, e: nat, a: nat)
    requires Inv(d) && e < |d.elements| && a < |d.objects| && d.objects[a].owner == None
    requires Has(d.elements[e].attributes, d.objects[a].name) && Place(d, d.elements[e].attrs, d.objects[a].name) == None
    ensures Inv(TakeIn(d, e, a))
  {
    var x := TakeIn(d, e, a);
    assert forall f :: 0 <= f < |x.elements| ==> x.elements[f].attributes == d.elements[f].attributes;
    forall f | 0 <= f < |x.elements|
      ensures AttributesOk(x.elements[f].attributes) && MapOk(x, f)
    {
      assert MapOk(d, f) && AttributesOk(d.elements[f].attributes);
      FreeNowhere(d, a, f);
      TakeInMap(d, e, a, f);
    }
    forall b | 0 <= b < |x.objects|
      ensures OwnedOk(x, b)
    {
      assert OwnedOk(d, b);
      TakeInOwned(d, e, a, b);
    }
  }

  lemma TakeInMap(d: Dom, e: nat, a: nat, f: nat)
    requires e < |d.elements| && a < |d.objects| && f < |d.elements| && MapOk(d, f) && a !in d.elements[f].attrs
    requires Has(d.elements[e].attributes, d.objects[a].name) && Place(d, d.elements[e].attrs, d.objects[a].name) == None
    ensures MapOk(TakeIn(d, e, a), f)
  {
    hide IndexOf, Place;
    var x := TakeIn(d, e, a);
    var m, o := x.elements[f].attrs, d.elements[f].attrs;
    assert forall b :: 0 <= b < |d.objects| ==> x.objects[b].name == d.objects[b].name;
    forall k | 0 <= k < |m|
      ensures InMap(x, f, m[k])
    {
      if k < |o| {
        assert InMap(d, f, o[k]) && m[k] == o[k] && o[k] in o;
      }
    }
    forall j, k | 0 <= j < k < |m|
      ensures m[j] < |x.objects| && m[k] < |x.objects| && x.objects[m[j]].name != x.objects[m[k]].name
    {
      assert InMap(d, f, o[j]) && m[j] == o[j];
      assert k < |o| ==> m[k] == o[k] && InMap(d, f, o[k]);
    }
  }

  lemma TakeInOwned(d: Dom, e: nat, a: nat, b: nat)
    requires e < |d.elements| && a < |d.objects| && b < |d.objects| && OwnedOk(d, b)
    ensures OwnedOk(TakeIn(d, e, a), b)
  {
    hide PrefixOk;
    var x := TakeIn(d, e, a);
    if b == a {
      assert x.elements[e].attrs[|d.elements[e].attrs|] == a;
    } else if d.objects[b].owner == Some(e) {
      var k :| 0 <= k < |d.elements[e].attrs| && d.elements[e].attrs[k] == b;
      assert x.elements[e].attrs[k] == b;
    }
  }

  /** An object with an owner stands for an attribute: the two come and go together. */
  lemma OwnedStands(d: Dom, a: nat)
    requires Inv(d) && a < |d.objects|
    ensures OwnerElement(d, a) == d.objects[a].owner
  {
    hide IndexOf;
    assert OwnedOk(d, a);
    if d.objects[a].owner.Some? {
      var e := d.objects[a].owner.value;
      assert MapOk(d, e);
      var k :| 0 <= k < |d.elements[e].attrs| && d.elements[e].attrs[k] == a;
      assert InMap(d, e, d.elements[e].attrs[k]);
    }
  }

  /** Letting go touches the one object of that name in that map, and no other. */
  lemma LetGoEffect(d: Dom, e: nat, n: Name, value: string, b: nat)
    requires Inv(d) && e < |d.elements| && b < |d.objects|
    ensures var x := LetGo(d, e, n, value);
            x.objects[b] == if d.objects[b].owner == Some(e) && d.objects[b].name == n then d.objects[b].(owner := None, value := value)
                            else d.objects[b]
  {
    hide IndexOf, PrefixOk, NamesOnce;
    assert MapOk(d, e) && OwnedOk(d, b);
    var m := d.elements[e].attrs;
    var p := Place(d, m, n);
    if d.objects[b].owner == Some(e) {
      var k :| 0 <= k < |m| && m[k] == b;
      if p.Some? && p.value != k {
        OtherName(d, e, p.value, k);
      }
    }
    if p.Some? {
      assert InMap(d, e, m[p.value]);
    }
    hide Place;
  }

  lemma Commute(d: Dom, e: nat, a: nat, n: Name, prefix: string, value: string)
    requires e < |d.elements| && a < |d.objects|
    ensures SetNs(TakeIn(d, e, a), e, n, prefix, value) == TakeIn(SetNs(d, e, n, prefix, value), e, a)
  {
    hide IndexOf;
    var x, y := SetNs(TakeIn(d, e, a), e, n, prefix, value), TakeIn(SetNs(d, e, n, prefix, value), e, a);
    assert x.elements[e] == y.elements[e];
    assert x.elements == y.elements;
  }

  /** Where the object given stands for nothing: the map as its place has been made. */
  function Freed(d: Dom, e: nat, a: nat): (r: Dom)
    requires e < |d.elements| && a < |d.objects|
    ensures |r.elements| == |d.elements| && |r.objects| >= |d.objects|
  {
    var n := d.objects[a].name;
    var i := IndexOf(d.elements[e].attributes, n);
    if i.None? then LetGo(d, e, n, "") else LetGo(AttrAt(d, e, i.value).dom, e, n, d.elements[e].attributes[i.value].value)
  }

  lemma AttrAtFrame(d: Dom, e: nat, i: nat)
    requires e < |d.elements|
    ensures var x := AttrAt(d, e, i).dom;
            && (forall b :: 0 <= b < |d.objects| ==> x.objects[b] == d.objects[b])
            && (forall f :: 0 <= f < |d.elements| ==> x.elements[f].attributes == d.elements[f].attributes)
  {
  }

  lemma FreedKeeps(d: Dom, e: nat, a: nat)
    requires Inv(d) && e < |d.elements| && a < |d.objects| && OwnerElement(d, a) == None
    ensures var f, n := Freed(d, e, a), d.objects[a].name;
            && Inv(f) && Place(f, f.elements[e].attrs, n) == None && f.objects[a] == d.objects[a] && d.objects[a].owner == None
            && f.elements[e].attributes == d.elements[e].attributes
  {
    OwnedStands(d, a);
    var n := d.objects[a].name;
    var i := IndexOf(d.elements[e].attributes, n);
    hide Inv, IndexOf, LetGo, AttrAt, OwnerElement;
    var r, was := d, "";
    if i.Some? {
      AttrAtKeeps(d, e, i.value);
      AttrAtFrame(d, e, i.value);
      r, was := AttrAt(d, e, i.value).dom, d.elements[e].attributes[i.value].value;
    }
    LetGoKeeps(r, e, n, was);
    LetGoEffect(r, e, n, was, a);
    LetGoAttributes(r, e, n, was);
  }

  /** What `set_attribute_node` comes to, once the place is made. */
  function Settled(d: Dom, e: nat, a: nat): (r: Dom)
    requires e < |d.elements| && a < |d.objects|
    ensures |r.elements| == |d.elements| && |r.objects| >= |d.objects|
  {
    var o := d.objects[a];
    SetPrefix(TakeIn(SetNs(Freed(d, e, a), e, o.name, o.prefix, o.value), e, a), e, o.name, o.prefix)
  }

  lemma SetNodeIs(d: Dom, e: nat, a: nat)
    requires Inv(d) && e < |d.elements| && a < |d.objects| && OwnerElement(d, a) == None
    ensures SetNode(d, e, a).dom == Settled(d, e, a)
    ensures var i := IndexOf(d.elements[e].attributes, d.objects[a].name);
            SetNode(d, e, a).answer == (if i.None? then Null else AttrAt(d, e, i.value).answer) != Object(a)
  {
    OwnedStands(d, a);
    FreeNowhere(d, a, e);
    var o := d.objects[a];
    var i := IndexOf(d.elements[e].attributes, o.name);
    if i.Some? {
      AttrAtAnswer(d, e, i.value);
    }
    Commute(Freed(d, e, a), e, a, o.name, o.prefix, o.value);
    hide IndexOf, LetGo, AttrAt, SetNs, TakeIn, SetPrefix, Inv;
  }

  lemma AttrAtAnswer(d: Dom, e: nat, i: nat)
    requires e < |d.elements| && i < |d.elements[e].attributes|
    ensures var r := AttrAt(d, e, i).answer; r.Object? && (r.a in d.elements[e].attrs || r.a == |d.objects|)
  {
  }

  lemma SettledKeeps(d: Dom, e: nat, a: nat)
    requires Inv(d) && e < |d.elements| && a < |d.objects| && OwnerElement(d, a) == None
    ensures Inv(Settled(d, e, a))
  {
    FreedKeeps(d, e, a);
    var o, f := d.objects[a], Freed(d, e, a);
    assert OwnedOk(d, a);
    hide Inv, IndexOf, Freed, OwnerElement, Place;
    SetNsKeeps(f, e, o.name, o.prefix, o.value);
    var x := SetNs(f, e, o.name, o.prefix, o.value);
    SamePlace(f, x, f.elements[e].attrs, o.name);
    assert x.elements[e].attrs == f.elements[e].attrs;
    hide SetNs;
    TakeInKeeps(x, e, a);
    SetPrefixKeeps(TakeIn(x, e, a), e, o.name, o.prefix);
  }

  // Runs.

  datatype Op =
    | NewElement
    | NewAttr(name: Name, prefix: string, value: string)
    | GetAttr(e: nat, i: nat)
    | SetByName(e: nat, qualified: string, value: string)
    | SetByNs(e: nat, name: Name, prefix: string, value: string)
    | RemoveByName(e: nat, qualified: string)
    | RemoveByNs(e: nat, name: Name)
    | PutNode(e: nat, a: nat)
    | TakeNode(e: nat, a: nat)
    | SetObjectValue(a: nat, value: string)

  predicate Can(d: Dom, op: Op) {
    match op
    case NewElement => true
    case NewAttr(n, prefix, _) => PrefixOk(n, prefix)
    case GetAttr(e, _) => e < |d.elements|
    case SetByName(e, _, _) => e < |d.elements|
    case SetByNs(e, n, prefix, _) => e < |d.elements| && PrefixOk(n, prefix)
    case RemoveByName(e, _) => e < |d.elements|
    case RemoveByNs(e, _) => e < |d.elements|
    case PutNode(e, a) => e < |d.elements| && a < |d.objects|
    case TakeNode(e, a) => e < |d.elements| && a < |d.objects|
    case SetObjectValue(a, _) => a < |d.objects|
  }

  function Do(d: Dom, op: Op): Dom
    requires Can(d, op)
  {
    match op
    case NewElement => d.(elements := d.elements + [Element([], [])])
    case NewAttr(n, prefix, value) => d.(objects := d.objects + [AttrObject(None, n, prefix, value)])
    case GetAttr(e, i) => AttrAt(d, e, i).dom
    case SetByName(e, q, value) => Set(d, e, q, value)
    case SetByNs(e, n, prefix, value) => SetNs(d, e, n, prefix, value)
    case RemoveByName(e, q) => Remove(d, e, q)
    case RemoveByNs(e, n) => RemoveNs(d, e, n)
    case PutNode(e, a) => SetNode(d, e, a).dom
    case TakeNode(e, a) => RemoveNode(d, e, a).dom
    case SetObjectValue(a, value) => SetValue(d, a, value)
  }

  lemma NewKeeps(d: Dom, op: Op)
    requires Inv(d) && Can(d, op) && (op.NewElement? || op.NewAttr?)
    ensures Inv(Do(d, op))
  {
    hide IndexOf;
    var x := Do(d, op);
    forall f | 0 <= f < |x.elements|
      ensures AttributesOk(x.elements[f].attributes) && MapOk(x, f)
    {
      if f < |d.elements| {
        assert MapOk(d, f) && AttributesOk(d.elements[f].attributes);
        forall k | 0 <= k < |x.elements[f].attrs|
          ensures InMap(x, f, x.elements[f].attrs[k])
        {
          assert InMap(d, f, d.elements[f].attrs[k]);
        }
      }
    }
    forall a | 0 <= a < |x.objects|
      ensures OwnedOk(x, a)
    {
      assert a < |d.objects| ==> OwnedOk(d, a);
    }
  }

  lemma SetValueKeeps(d: Dom, a: nat, value: string)
    requires Inv(d) && a < |d.objects|
    ensures Inv(SetValue(d, a, value))
  {
    hide IndexOf, PrefixOk;
    var e := OwnerElement(d, a);
    assert OwnedOk(d, a);
    if e.Some? {
      SetNsKeeps(d, e.value, d.objects[a].name, d.objects[a].prefix, value);
    } else {
      var x := SetValue(d, a, value);
      forall f | 0 <= f < |x.elements|
        ensures MapOk(x, f)
      {
        assert MapOk(d, f);
        forall k | 0 <= k < |x.elements[f].attrs|
          ensures InMap(x, f, x.elements[f].attrs[k])
        {
          assert InMap(d, f, d.elements[f].attrs[k]);
        }
      }
      forall b | 0 <= b < |x.objects|
        ensures OwnedOk(x, b)
      {
        assert OwnedOk(d, b);
      }
    }
  }

  /** Every operation keeps what holds. */
  lemma StepKeeps(d: Dom, op: Op)
    requires Inv(d) && Can(d, op)
    ensures Inv(Do(d, op))
  {
    hide Inv, IndexOf, IndexQualified, AttrAt, Set, SetNs, Erase, SetNode, SetValue, OwnerElement;
    match op
    case NewElement => NewKeeps(d, op);
    case NewAttr(_, _, _) => NewKeeps(d, op);
    case GetAttr(e, i) => AttrAtKeeps(d, e, i);
    case SetByName(e, q, value) => SetKeeps(d, e, q, value);
    case SetByNs(e, n, prefix, value) => SetNsKeeps(d, e, n, prefix, value);
    case RemoveByName(e, q) =>
      var i := IndexQualified(d.elements[e].attributes, q);
      if i.Some? {
        EraseKeeps(d, e, i.value);
      }
    case RemoveByNs(e, n) => RemoveNsKeeps(d, e, n);
    case PutNode(e, a) => SetNodeKeeps(d, e, a);
    case TakeNode(e, a) => RemoveNsKeeps(d, e, d.objects[a].name);
    case SetObjectValue(a, value) => SetValueKeeps(d, a, value);
  }

  lemma RemoveNsKeeps(d: Dom, e: nat, n: Name)
    requires Inv(d) && e < |d.elements|
    ensures Inv(RemoveNs(d, e, n))
  {
    hide Inv, IndexOf, Erase;
    var i := IndexOf(d.elements[e].attributes, n);
    if i.Some? {
      EraseKeeps(d, e, i.value);
    }
  }

  lemma SetNodeKeeps(d: Dom, e: nat, a: nat)
    requires Inv(d) && e < |d.elements| && a < |d.objects|
    ensures Inv(SetNode(d, e, a).dom)
  {
    if OwnerElement(d, a).None? {
      SetNodeIs(d, e, a);
      SettledKeeps(d, e, a);
    }
    hide Inv, Settled;
  }

  predicate CanRun(d: Dom, run: seq<Op>)
    decreases |run|
  {
    run == [] || (Can(d, run[0]) && CanRun(Do(d, run[0]), run[1..]))
  }

  function After(d: Dom, run: seq<Op>): Dom
    requires CanRun(d, run)
    decreases |run|
  {
    if run == [] then d else After(Do(d, run[0]), run[1..])
  }

  lemma {:induction false} RunKeeps(d: Dom, run: seq<Op>)
    requires Inv(d) && CanRun(d, run)
    ensures Inv(After(d, run))
    decreases |run|
  {
    hide Inv, Can, Do;
    if run != [] {
      StepKeeps(d, run[0]);
      RunKeeps(Do(d, run[0]), run[1..]);
    }
  }

  /**
   After any run: an object is in a map exactly if that element owns it, and then it stands for one of its attributes; and
   two objects never stand for the same attribute.
   */
  lemma OneObjectEach(run: seq<Op>, a: nat, b: nat, e: nat)
    requires CanRun(Dom([], []), run)
    requires a < |After(Dom([], []), run).objects| && b < |After(Dom([], []), run).objects| && e < |After(Dom([], []), run).elements|
    ensures var d := After(Dom([], []), run);
            && (a in d.elements[e].attrs <==> d.objects[a].owner == Some(e))
            && OwnerElement(d, a) == d.objects[a].owner
            && (a != b && d.objects[a].owner == Some(e) && d.objects[b].owner == Some(e) ==> d.objects[a].name != d.objects[b].name)
  {
    RunKeeps(Dom([], []), run);
    var d := After(Dom([], []), run);
    OwnedStands(d, a);
    hide After, CanRun, IndexOf, OwnerElement;
    assert MapOk(d, e) && OwnedOk(d, a) && OwnedOk(d, b);
    var m := d.elements[e].attrs;
    if a in m {
      var k :| 0 <= k < |m| && m[k] == a;
      assert InMap(d, e, m[k]);
    }
    if a != b && d.objects[a].owner == Some(e) && d.objects[b].owner == Some(e) {
      var j :| 0 <= j < |m| && m[j] == a;
      var k :| 0 <= k < |m| && m[k] == b;
      OtherName(d, e, j, k);
    }
  }

  /** Whether an operation removes or replaces the attribute of a name. */
  predicate Takes(d: Dom, op: Op, e: nat, a: nat)
    requires a < |d.objects| && e < |d.elements|
  {
    var s, n := d.elements[e].attributes, d.objects[a].name;
    match op
    case RemoveByName(f, q) => f == e && IndexQualified(s, q).Some? && s[IndexQualified(s, q).value].name == n
    case RemoveByNs(f, m) => f == e && m == n
    case PutNode(f, b) => f == e && b != a && b < |d.objects| && d.objects[b].name == n && OwnerElement(d, b) == None
    case TakeNode(f, b) => f == e && b == a
    case _ => false
  }

  lemma NameAt(s: seq<Attribute>, i: nat, n: Name)
    requires NamesOnce(s) && i < |s| && s[i].name == n
    ensures IndexOf(s, n) == Some(i)
  {
  }

  lemma EraseIdentity(d: Dom, e: nat, i: nat, f: nat, a: nat)
    requires Inv(d) && e < |d.elements| && i < |d.elements[e].attributes|
    requires a < |d.objects| && f < |d.elements| && d.objects[a].owner == Some(f)
    ensures var x, o := Erase(d, e, i), d.objects[a];
            x.objects[a] == if f == e && o.name == d.elements[e].attributes[i].name then o.(owner := None, value := Value(d, a)) else o
  {
    var s := d.elements[e].attributes;
    EraseIs(d, e, i);
    LetGoEffect(d, e, s[i].name, s[i].value, a);
    OwnedStands(d, a);
    assert AttributesOk(s);
    if f == e && d.objects[a].name == s[i].name {
      NameAt(s, i, s[i].name);
    }
    hide Inv, LetGo, Erase, IndexOf;
  }

  lemma FreedIdentity(d: Dom, e: nat, b: nat, f: nat, a: nat)
    requires Inv(d) && e < |d.elements| && b < |d.objects| && OwnerElement(d, b) == None
    requires a < |d.objects| && f < |d.elements| && d.objects[a].owner == Some(f)
    ensures var x, o := Freed(d, e, b), d.objects[a];
            x.objects[a] == if f == e && o.name == d.objects[b].name then o.(owner := None, value := Value(d, a)) else o
  {
    OwnedStands(d, a);
    var n := d.objects[b].name;
    var i := IndexOf(d.elements[e].attributes, n);
    hide Inv, LetGo, AttrAt, OwnerElement;
    var r, was := d, "";
    if i.Some? {
      AttrAtKeeps(d, e, i.value);
      AttrAtFrame(d, e, i.value);
      r, was := AttrAt(d, e, i.value).dom, d.elements[e].attributes[i.value].value;
    }
    LetGoEffect(r, e, n, was, a);
    hide IndexOf;
  }

  lemma SetNodeIdentity(d: Dom, e: nat, b: nat, f: nat, a: nat)
    requires Inv(d) && e < |d.elements| && b < |d.objects| && OwnerElement(d, b) == None
    requires a < |d.objects| && f < |d.elements| && d.objects[a].owner == Some(f)
    ensures var x, o := SetNode(d, e, b).dom, d.objects[a];
            a < |x.objects|
            && x.objects[a] == if f == e && o.name == d.objects[b].name then o.(owner := None, value := Value(d, a)) else o
  {
    OwnedStands(d, b);
    SetNodeIs(d, e, b);
    FreedIdentity(d, e, b, f, a);
    hide Inv, Freed, SetNode, OwnerElement, Value;
    assert a != b;
  }

  lemma ByNodeIdentity(d: Dom, op: Op, f: nat, a: nat)
    requires Inv(d) && Can(d, op) && a < |d.objects| && f < |d.elements| && d.objects[a].owner == Some(f)
    requires op.PutNode? || op.TakeNode?
    ensures var x, o := Do(d, op), d.objects[a];
            a < |x.objects| && x.objects[a] == if Takes(d, op, f, a) then o.(owner := None, value := Value(d, a)) else o
  {
    hide Inv, IndexOf, SetNode, RemoveNs, Value, OwnerElement;
    OwnedStands(d, a);
    OwnedStands(d, op.a);
    if op.TakeNode? {
      RemoveIdentity(d, op.e, d.objects[op.a].name, f, a);
      if OwnerElement(d, op.a) == Some(op.e) && f == op.e && d.objects[a].name == d.objects[op.a].name {
        SameObject(d, op.e, a, op.a);
      }
    } else if OwnerElement(d, op.a) == None {
      SetNodeIdentity(d, op.e, op.a, f, a);
    } else {
      Held(d, op.e, op.a);
    }
  }

  lemma ByNameIdentity(d: Dom, op: Op, f: nat, a: nat)
    requires Inv(d) && Can(d, op) && a < |d.objects| && f < |d.elements| && d.objects[a].owner == Some(f)
    requires !op.PutNode? && !op.TakeNode?
    ensures var x, o := Do(d, op), d.objects[a];
            a < |x.objects| && x.objects[a] == if Takes(d, op, f, a) then o.(owner := None, value := Value(d, a)) else o
  {
    hide Inv, IndexOf, IndexQualified, Erase, Value, Place;
    match op
    case RemoveByName(e, q) =>
      var i := IndexQualified(d.elements[e].attributes, q);
      if i.Some? {
        EraseIdentity(d, e, i.value, f, a);
      }
    case RemoveByNs(e, n) => RemoveIdentity(d, e, n, f, a);
    case SetObjectValue(b, value) => OwnedStands(d, a);
    case _ =>
  }

  /**
   Identity, over any one operation and so over any run: an object that stands for an attribute goes on standing for it, with
   its name, unless the operation removes or replaces that attribute; then it has no owner, and reads the value it had.
   */
  lemma KeepsOrLeaves(d: Dom, op: Op, f: nat, a: nat)
    requires Inv(d) && Can(d, op) && a < |d.objects| && f < |d.elements| && d.objects[a].owner == Some(f)
    ensures var x, o := Do(d, op), d.objects[a];
            && a < |x.objects|
            && if Takes(d, op, f, a) then x.objects[a] == o.(owner := None, value := Value(d, a)) && Value(x, a) == Value(d, a)
               else x.objects[a] == o
  {
    hide *;
    if op.PutNode? || op.TakeNode? {
      ByNodeIdentity(d, op, f, a);
    } else {
      ByNameIdentity(d, op, f, a);
    }
    FreeValue(Do(d, op), a);
  }

  lemma Held(d: Dom, e: nat, b: nat)
    requires e < |d.elements| && b < |d.objects| && OwnerElement(d, b) != None
    ensures SetNode(d, e, b).dom == d
  {
  }

  lemma FreeValue(d: Dom, a: nat)
    ensures a < |d.objects| && d.objects[a].owner == None ==> Value(d, a) == d.objects[a].value
  {
  }

  lemma SameObject(d: Dom, e: nat, a: nat, b: nat)
    requires Inv(d) && a < |d.objects| && b < |d.objects| && e < |d.elements|
    requires d.objects[a].owner == Some(e) && d.objects[b].owner == Some(e) && d.objects[a].name == d.objects[b].name
    ensures a == b
  {
    hide IndexOf;
    assert MapOk(d, e) && OwnedOk(d, a) && OwnedOk(d, b);
    var m := d.elements[e].attrs;
    var j :| 0 <= j < |m| && m[j] == a;
    var k :| 0 <= k < |m| && m[k] == b;
  }

  lemma RemoveIdentity(d: Dom, e: nat, n: Name, f: nat, a: nat)
    requires Inv(d) && e < |d.elements| && a < |d.objects| && f < |d.elements| && d.objects[a].owner == Some(f)
    ensures var x, o := RemoveNs(d, e, n), d.objects[a];
            x.objects[a] == if f == e && o.name == n then o.(owner := None, value := Value(d, a)) else o
  {
    OwnedStands(d, a);
    var i := IndexOf(d.elements[e].attributes, n);
    if i.Some? {
      EraseIdentity(d, e, i.value, f, a);
    }
    hide Inv, Erase, Value;
  }

  /** After `set_attribute_node` the object given is what the attribute's index answers, with the value it had. */
  lemma SetNodeAnswers(d: Dom, e: nat, a: nat)
    requires Inv(d) && e < |d.elements| && a < |d.objects| && OwnerElement(d, a) == None
    ensures var r, n := SetNode(d, e, a), d.objects[a].name;
            && a < |r.dom.objects| && r.dom.objects[a].owner == Some(e) && r.dom.objects[a].name == n
            && Value(r.dom, a) == Value(d, a)
            && var i := IndexOf(r.dom.elements[e].attributes, n);
               i.Some? && AttrAt(r.dom, e, i.value) == Result(r.dom, Object(a))
  {
    SetNodeIs(d, e, a);
    SettledKeeps(d, e, a);
    FreedKeeps(d, e, a);
    var x, o := Settled(d, e, a), d.objects[a];
    SettledReads(d, e, a);
    OwnedStands(x, a);
    FreeValue(d, a);
    hide Settled, Freed, SetNode;
    var i := IndexOf(x.elements[e].attributes, o.name);
    ObjectAt(x, e, a);
    hide Inv, AttrAt, IndexOf;
  }

  lemma SettledReads(d: Dom, e: nat, a: nat)
    requires Inv(d) && e < |d.elements| && a < |d.objects| && OwnerElement(d, a) == None
    ensures var x, o := Settled(d, e, a), d.objects[a];
            var i := IndexOf(x.elements[e].attributes, o.name);
            && x.objects[a].owner == Some(e) && x.objects[a].name == o.name
            && i.Some? && x.elements[e].attributes[i.value].value == o.value && x.elements[e].attributes[i.value].prefix == o.prefix
  {
    FreedKeeps(d, e, a);
    var o, f := d.objects[a], Freed(d, e, a);
    hide Inv, Freed, OwnerElement, Place;
    SetReads(f.elements[e].attributes, o.name, o.prefix, o.value);
    hide IndexOf;
  }

  /** The attribute as it is set reads so. */
  lemma SetReads(s: seq<Attribute>, n: Name, prefix: string, value: string)
    ensures var i := IndexOf(s, n);
            var t := if i.Some? then s[i.value := s[i.value].(value := value)] else s + [Attribute(n, prefix, value)];
            var j := IndexOf(t, n);
            && j.Some? && t[j.value].value == value
            && IndexOf(t[j.value := t[j.value].(prefix := prefix)], n) == j
  {
    var i := IndexOf(s, n);
    var t := if i.Some? then s[i.value := s[i.value].(value := value)] else s + [Attribute(n, prefix, value)];
    FirstIs(s, n);
    if i.Some? {
      FirstAt(t, n, i.value);
      FirstAt(t[i.value := t[i.value].(prefix := prefix)], n, i.value);
    } else {
      FirstAt(t, n, |s|);
      FirstAt(t[|s| := t[|s|].(prefix := prefix)], n, |s|);
    }
    hide IndexOf;
  }

  lemma {:induction false} FirstIs(s: seq<Attribute>, n: Name)
    ensures IndexOf(s, n).Some? ==> forall k :: 0 <= k < IndexOf(s, n).value ==> s[k].name != n
    decreases |s|
  {
    if s != [] {
      FirstIs(s[1..], n);
    }
  }

  lemma {:induction false} FirstAt(s: seq<Attribute>, n: Name, i: nat)
    requires i < |s| && s[i].name == n && forall k :: 0 <= k < i ==> s[k].name != n
    ensures IndexOf(s, n) == Some(i)
    decreases |s|
  {
    if i > 0 {
      FirstAt(s[1..], n, i - 1);
    }
  }

  /** An attribute's index answers the object that stands for it, and makes no other; as often as it is asked. */
  lemma ObjectAt(d: Dom, e: nat, a: nat)
    requires Inv(d) && e < |d.elements| && a < |d.objects| && d.objects[a].owner == Some(e)
    ensures var i := IndexOf(d.elements[e].attributes, d.objects[a].name);
            i.Some? && AttrAt(d, e, i.value) == Result(d, Object(a))
  {
    OwnedStands(d, a);
    assert MapOk(d, e) && OwnedOk(d, a);
    var m, n := d.elements[e].attrs, d.objects[a].name;
    var k :| 0 <= k < |m| && m[k] == a;
    var p := Place(d, m, n);
    if p.value != k {
      OtherName(d, e, p.value, k);
    }
    hide Place, IndexOf;
  }

  /** The object of an attribute is its element's, and has its name. */
  lemma AttrAtOwned(d: Dom, e: nat, i: nat)
    requires Inv(d) && e < |d.elements| && i < |d.elements[e].attributes|
    ensures var r := AttrAt(d, e, i);
            r.answer.Object? && r.answer.a < |r.dom.objects|
            && r.dom.objects[r.answer.a].owner == Some(e) && r.dom.objects[r.answer.a].name == d.elements[e].attributes[i].name
  {
    hide IndexOf, Place;
    assert MapOk(d, e);
    var x := d.elements[e];
    var p := Place(d, x.attrs, x.attributes[i].name);
    if p.Some? {
      assert InMap(d, e, x.attrs[p.value]);
    }
  }

  /**
   What `set_attribute_node` answers: none if the name was free, and else the object of the attribute that was there, the one
   it had or one made for it, which now has no owner and reads the attribute's last value.
   */
  lemma SetNodePrevious(d: Dom, e: nat, a: nat)
    requires Inv(d) && e < |d.elements| && a < |d.objects| && OwnerElement(d, a) == None
    ensures var r, i := SetNode(d, e, a), IndexOf(d.elements[e].attributes, d.objects[a].name);
            if i.None? then r.answer == Null
            else
              && r.answer == AttrAt(d, e, i.value).answer && r.answer.Object? && r.answer.a != a && r.answer.a < |r.dom.objects|
              && r.dom.objects[r.answer.a].owner == None
              && Value(r.dom, r.answer.a) == d.elements[e].attributes[i.value].value
  {
    SetNodeIs(d, e, a);
    var n := d.objects[a].name;
    var i := IndexOf(d.elements[e].attributes, n);
    if i.Some? {
      var was := d.elements[e].attributes[i.value].value;
      AttrAtOwned(d, e, i.value);
      AttrAtKeeps(d, e, i.value);
      var r := AttrAt(d, e, i.value);
      LetGoEffect(r.dom, e, n, was, r.answer.a);
      hide Inv, AttrAt, LetGo, SetNode, IndexOf, OwnerElement, Value;
      assert Settled(d, e, a).objects[r.answer.a] == Freed(d, e, a).objects[r.answer.a];
      FreeValue(Settled(d, e, a), r.answer.a);
    }
  }

  /** Given an object another element holds, or its own, nothing changes; the first is an error. */
  lemma SetNodeHeld(d: Dom, e: nat, a: nat)
    requires Inv(d) && e < |d.elements| && a < |d.objects| && d.objects[a].owner.Some?
    ensures SetNode(d, e, a) == Result(d, if d.objects[a].owner == Some(e) then Object(a) else InUse)
  {
    OwnedStands(d, a);
    hide Inv, OwnerElement, Value;
  }

  /** Nothing of the elements is changed but that `e` has attribute i no more. */
  ghost predicate Lacks(d: Dom, x: Dom, e: nat, i: nat)
    requires e < |d.elements| && i < |d.elements[e].attributes|
  {
    && |x.elements| == |d.elements|
    && x.elements[e].attributes == d.elements[e].attributes[..i] + d.elements[e].attributes[i + 1..]
    && forall f :: 0 <= f < |d.elements| && f != e ==> x.elements[f] == d.elements[f]
  }

  lemma EraseLacks(d: Dom, e: nat, i: nat)
    requires e < |d.elements| && i < |d.elements[e].attributes|
    ensures Lacks(d, Erase(d, e, i), e, i)
  {
    EraseIs(d, e, i);
    hide Erase, Place;
  }

  /** Removing an attribute takes the one of that name, and no other; the name is then free. */
  lemma RemovedGone(d: Dom, e: nat, n: Name)
    requires Inv(d) && e < |d.elements|
    ensures var s, x := d.elements[e].attributes, RemoveNs(d, e, n);
            if !Has(s, n) then x == d
            else (exists i :: 0 <= i < |s| && s[i].name == n && Lacks(d, x, e, i)) && !Has(x.elements[e].attributes, n)
  {
    var s := d.elements[e].attributes;
    var i := IndexOf(s, n);
    assert AttributesOk(s);
    if i.Some? {
      EraseLacks(d, e, i.value);
      DropHas(s, i.value, n);
    }
    hide Inv, Erase, IndexOf;
  }

  /** By a qualified name it takes the first attribute that has it, and no other. */
  lemma RemovedQualified(d: Dom, e: nat, q: string)
    requires e < |d.elements|
    ensures var s, x := d.elements[e].attributes, Remove(d, e, q);
            || (x == d && forall i :: 0 <= i < |s| ==> Qualified(s[i].prefix, s[i].name.local) != q)
            || exists i :: 0 <= i < |s| && FirstQualified(s, q, i) && Lacks(d, x, e, i)
  {
    var s := d.elements[e].attributes;
    var i := IndexQualified(s, q);
    if i.Some? {
      QualifiedIs(s, q);
      EraseLacks(d, e, i.value);
    }
    hide Erase, IndexQualified, Lacks;
  }

  ghost predicate FirstQualified(s: seq<Attribute>, q: string, i: nat)
    requires i < |s|
  {
    Qualified(s[i].prefix, s[i].name.local) == q && forall j :: 0 <= j < i ==> Qualified(s[j].prefix, s[j].name.local) != q
  }

  lemma {:induction false} QualifiedIs(s: seq<Attribute>, q: string)
    ensures IndexQualified(s, q).Some? ==> FirstQualified(s, q, IndexQualified(s, q).value)
    decreases |s|
  {
    hide Qualified;
    if s != [] && Qualified(s[0].prefix, s[0].name.local) != q {
      QualifiedIs(s[1..], q);
    }
  }
}
