/**
 What each write of an attribute comes to, as a script sees it (src/bindings/Attributes.cpp, src/bindings/Realm.cpp): which
 attribute of which element is other than it was, and what every Attr object reads after it.
 */
module AttributeEffects {
  import opened Wrappers
  import opened Attributes

  function AttributesOf(d: Dom, e: nat): seq<Attribute> { if e < |d.elements| then d.elements[e].attributes else [] }

  /** Of all attributes of all elements, only attribute i of e is other than it was: it is t. */
  ghost predicate OnlyAt(d: Dom, x: Dom, e: nat, i: nat, t: Attribute) {
    var s, u := AttributesOf(d, e), AttributesOf(x, e);
    && |x.elements| == |d.elements| && |u| == |s| && i < |s| && u[i] == t && (forall j :: 0 <= j < |s| && j != i ==> u[j] == s[j])
    && forall f: nat :: f != e ==> AttributesOf(x, f) == AttributesOf(d, f)
  }

  /** The attributes are as they were, and one more: t, the last of e. */
  ghost predicate OneMore(d: Dom, x: Dom, e: nat, t: Attribute) {
    var s, u := AttributesOf(d, e), AttributesOf(x, e);
    && |x.elements| == |d.elements| && |u| == |s| + 1 && u[..|s|] == s && u[|s|] == t
    && forall f: nat :: f != e ==> AttributesOf(x, f) == AttributesOf(d, f)
  }

  /** No object and no map is other than it was. */
  ghost predicate SameObjects(d: Dom, x: Dom) {
    && x.objects == d.objects && |x.elements| == |d.elements|
    && forall f :: 0 <= f < |d.elements| ==> x.elements[f].attrs == d.elements[f].attrs
  }

  /** The object of the attribute n of e, if it has one, reads v; any other reads what it did. */
  ghost predicate Reads(d: Dom, x: Dom, e: nat, n: Name, v: string) {
    |x.objects| == |d.objects| &&
    forall a :: 0 <= a < |d.objects| ==>
      Value(x, a) == if d.objects[a].owner == Some(e) && d.objects[a].name == n then v else Value(d, a)
  }

  /** An object with an owner reads the attribute of its name. */
  lemma ValueOwned(d: Dom, a: nat, f: nat, i: nat)
    requires Inv(d) && a < |d.objects| && d.objects[a].owner == Some(f) && i < |AttributesOf(d, f)|
    requires AttributesOf(d, f)[i].name == d.objects[a].name
    ensures Value(d, a) == AttributesOf(d, f)[i].value
  {
    OwnedStands(d, a);
    assert NamesOnce(d.elements[f].attributes) by {
      assert AttributesOk(d.elements[f].attributes);
    }
    var j := IndexOf(d.elements[f].attributes, d.objects[a].name).value;
    hide IndexOf, Inv;
  }

  /** It has such an attribute. */
  lemma OwnedAt(d: Dom, a: nat) returns (i: nat)
    requires Inv(d) && a < |d.objects| && d.objects[a].owner.Some?
    ensures var f := d.objects[a].owner.value; i < |AttributesOf(d, f)| && AttributesOf(d, f)[i].name == d.objects[a].name
    ensures d.objects[a].owner.value < |d.elements|
  {
    OwnedStands(d, a);
    hide Inv, IndexOf;
    i := IndexOf(d.elements[d.objects[a].owner.value].attributes, d.objects[a].name).value;
  }

  /** What is read where only values are written. */
  lemma OnlyAtReads(d: Dom, x: Dom, e: nat, i: nat, t: Attribute)
    requires Inv(d) && Inv(x) && SameObjects(d, x) && OnlyAt(d, x, e, i, t) && t.name == AttributesOf(d, e)[i].name
    ensures Reads(d, x, e, t.name, t.value)
  {
    hide Inv, Value;
    forall a | 0 <= a < |d.objects|
      ensures Value(x, a) == if d.objects[a].owner == Some(e) && d.objects[a].name == t.name then t.value else Value(d, a)
    {
      OnlyAtRead(d, x, e, i, t, a);
    }
  }

  lemma OnlyAtRead(d: Dom, x: Dom, e: nat, i: nat, t: Attribute, a: nat)
    requires Inv(d) && Inv(x) && |x.objects| >= |d.objects| && a < |d.objects| && x.objects[a] == d.objects[a]
    requires OnlyAt(d, x, e, i, t) && t.name == AttributesOf(d, e)[i].name
    ensures Value(x, a) == if d.objects[a].owner == Some(e) && d.objects[a].name == t.name then t.value else Value(d, a)
  {
    FreeValue(d, a);
    FreeValue(x, a);
    hide Inv, Value;
    if d.objects[a].owner.Some? {
      var f := d.objects[a].owner.value;
      var j := i;
      if f != e || d.objects[a].name != t.name {
        j := OwnedAt(d, a);
      }
      ValueOwned(d, a, f, j);
      ValueOwned(x, a, f, j);
    }
  }

  lemma OneMoreRead(d: Dom, x: Dom, e: nat, t: Attribute, a: nat)
    requires Inv(d) && Inv(x) && |x.objects| >= |d.objects| && a < |d.objects| && x.objects[a] == d.objects[a]
    requires OneMore(d, x, e, t)
    ensures Value(x, a) == Value(d, a)
  {
    FreeValue(d, a);
    FreeValue(x, a);
    hide Inv, Value;
    if d.objects[a].owner.Some? {
      var f := d.objects[a].owner.value;
      var j := OwnedAt(d, a);
      assert AttributesOf(x, f)[j] == AttributesOf(d, f)[j];
      ValueOwned(d, a, f, j);
      ValueOwned(x, a, f, j);
    }
  }

  lemma OneMoreReads(d: Dom, x: Dom, e: nat, t: Attribute)
    requires Inv(d) && Inv(x) && SameObjects(d, x) && OneMore(d, x, e, t) && !Has(AttributesOf(d, e), t.name)
    ensures Reads(d, x, e, t.name, t.value)
  {
    hide Inv, Value;
    forall a | 0 <= a < |d.objects|
      ensures Value(x, a) == if d.objects[a].owner == Some(e) && d.objects[a].name == t.name then t.value else Value(d, a)
    {
      OneMoreRead(d, x, e, t, a);
      if d.objects[a].owner == Some(e) && d.objects[a].name == t.name {
        var j := OwnedAt(d, a);
        HasAt(AttributesOf(d, e), j);
      }
    }
  }

  /** Attribute i of e is written with the value v, and nothing else. */
  ghost predicate Written(d: Dom, x: Dom, e: nat, i: nat, v: string) {
    && SameObjects(d, x) && i < |AttributesOf(d, e)|
    && var t := AttributesOf(d, e)[i]; OnlyAt(d, x, e, i, Attribute(t.name, t.prefix, v)) && Reads(d, x, e, t.name, v)
  }

  /** The attribute t is added to e, and nothing else is changed. */
  ghost predicate Added(d: Dom, x: Dom, e: nat, t: Attribute) { SameObjects(d, x) && OneMore(d, x, e, t) && Reads(d, x, e, t.name, t.value) }

  lemma WrittenIs(d: Dom, x: Dom, e: nat, i: nat, v: string)
    requires Inv(d) && Inv(x) && e < |d.elements| && i < |AttributesOf(d, e)|
    requires x == WithAttributes(d, e, d.elements[e].attributes[i := d.elements[e].attributes[i].(value := v)])
    ensures Written(d, x, e, i, v)
  {
    hide Inv, Reads;
    var t := AttributesOf(d, e)[i];
    OnlyAtReads(d, x, e, i, Attribute(t.name, t.prefix, v));
  }

  lemma AddedIs(d: Dom, x: Dom, e: nat, t: Attribute)
    requires Inv(d) && Inv(x) && e < |d.elements| && !Has(AttributesOf(d, e), t.name)
    requires x == WithAttributes(d, e, d.elements[e].attributes + [t])
    ensures Added(d, x, e, t)
  {
    hide Inv, Reads, Has;
    OneMoreReads(d, x, e, t);
  }

  /** A name with no namespace is its own qualified name. */
  lemma PlainName(d: Dom, e: nat, q: string)
    requires Inv(d) && e < |d.elements| && Has(AttributesOf(d, e), Name("", q))
    ensures exists i :: 0 <= i < |AttributesOf(d, e)| && Qualified(AttributesOf(d, e)[i].prefix, AttributesOf(d, e)[i].name.local) == q
  {
    var i := IndexOf(AttributesOf(d, e), Name("", q)).value;
    assert AttributesOk(d.elements[e].attributes);
    assert PrefixOk(AttributesOf(d, e)[i].name, AttributesOf(d, e)[i].prefix);
    hide Inv, IndexOf;
  }

  /** `setAttribute`: the first attribute of the qualified name is written; only where there is none, one is added. */
  lemma SetByNameWrites(d: Dom, e: nat, q: string, v: string)
    requires Inv(d) && Can(d, SetByName(e, q, v))
    ensures var s, x := AttributesOf(d, e), Do(d, SetByName(e, q, v));
            if forall i :: 0 <= i < |s| ==> Qualified(s[i].prefix, s[i].name.local) != q
            then Added(d, x, e, Attribute(Name("", q), "", v))
            else exists i :: 0 <= i < |s| && FirstQualified(s, q, i) && Written(d, x, e, i, v)
  {
    var s, x := AttributesOf(d, e), Do(d, SetByName(e, q, v));
    StepKeeps(d, SetByName(e, q, v));
    QualifiedIs(s, q);
    var i := IndexQualified(s, q);
    hide Inv, Written, Added, IndexQualified, Qualified, Has;
    if i.Some? {
      WrittenIs(d, x, e, i.value, v);
    } else {
      if Has(s, Name("", q)) {
        PlainName(d, e, q);
      }
      AddedIs(d, x, e, Attribute(Name("", q), "", v));
    }
  }

  /** `setAttributeNS`: the attribute of the namespace and local name is written; only where there is none, one is added. */
  lemma SetByNsWrites(d: Dom, e: nat, n: Name, prefix: string, v: string)
    requires Inv(d) && Can(d, SetByNs(e, n, prefix, v))
    ensures var s, x := AttributesOf(d, e), Do(d, SetByNs(e, n, prefix, v));
            if forall i :: 0 <= i < |s| ==> s[i].name != n then Added(d, x, e, Attribute(n, prefix, v))
            else exists i :: 0 <= i < |s| && s[i].name == n && Written(d, x, e, i, v)
  {
    var s, x := AttributesOf(d, e), Do(d, SetByNs(e, n, prefix, v));
    StepKeeps(d, SetByNs(e, n, prefix, v));
    var i := IndexOf(s, n);
    assert Has(s, n) <==> i.Some?;
    hide Inv, Written, Added, IndexOf, Has;
    if i.Some? {
      WrittenIs(d, x, e, i.value, v);
    } else {
      AddedIs(d, x, e, Attribute(n, prefix, v));
    }
  }

  lemma SameRead(d: Dom, x: Dom, b: nat)
    requires b < |d.objects| && b < |x.objects| && x.elements == d.elements && x.objects[b] == d.objects[b]
    ensures Value(x, b) == Value(d, b)
  {
    hide IndexOf;
  }

  lemma SetFree(d: Dom, a: nat, v: string)
    requires Inv(d) && a < |d.objects| && d.objects[a].owner == None
    ensures var x := SetValue(d, a, v);
            && x.elements == d.elements && x.objects == d.objects[a := d.objects[a].(value := v)] && Value(x, a) == v
            && forall b :: 0 <= b < |d.objects| && b != a ==> Value(x, b) == Value(d, b)
  {
    OwnedStands(d, a);
    hide OwnerElement, SetNs, Value;
    var x := SetValue(d, a, v);
    FreeValue(x, a);
    forall b | 0 <= b < |d.objects| && b != a
      ensures Value(x, b) == Value(d, b)
    {
      SameRead(d, x, b);
    }
  }

  lemma SetOwned(d: Dom, a: nat, v: string)
    requires Inv(d) && a < |d.objects| && d.objects[a].owner.Some?
    ensures var x, o := SetValue(d, a, v), d.objects[a];
            exists i :: 0 <= i < |AttributesOf(d, o.owner.value)| && AttributesOf(d, o.owner.value)[i].name == o.name
                        && Written(d, x, o.owner.value, i, v)
  {
    var o := d.objects[a];
    OwnedStands(d, a);
    assert PrefixOk(o.name, o.prefix) by {
      assert OwnedOk(d, a);
    }
    var j := OwnedAt(d, a);
    hide Inv, Written, Added, AttributesOf, OwnerElement, SetNs, PrefixOk;
    assert SetValue(d, a, v) == Do(d, SetByNs(o.owner.value, o.name, o.prefix, v));
    SetByNsWrites(d, o.owner.value, o.name, o.prefix, v);
  }

  /** Only the object of what is written reads otherwise. */
  lemma WrittenReads(d: Dom, x: Dom, a: nat, e: nat, i: nat, v: string)
    requires Inv(d) && Written(d, x, e, i, v) && a < |d.objects| && e < |d.elements|
    requires d.objects[a].owner == Some(e) && d.objects[a].name == AttributesOf(d, e)[i].name
    ensures |x.objects| == |d.objects| && Value(x, a) == v && forall b :: 0 <= b < |d.objects| && b != a ==> Value(x, b) == Value(d, b)
  {
    hide Inv, Value, OnlyAt;
    forall b | 0 <= b < |d.objects| && b != a
      ensures Value(x, b) == Value(d, b)
    {
      if d.objects[b].owner == Some(e) && d.objects[b].name == d.objects[a].name {
        SameObject(d, e, a, b);
      }
    }
  }

  /** Writing an Attr object's value: it reads so, every other reads what it did; with an owner, the attribute it stands for is written. */
  lemma SetObjectWrites(d: Dom, a: nat, v: string)
    requires Inv(d) && Can(d, SetObjectValue(a, v))
    ensures var x, o := Do(d, SetObjectValue(a, v)), d.objects[a];
            && |x.objects| == |d.objects| && Value(x, a) == v
            && (forall b :: 0 <= b < |d.objects| && b != a ==> Value(x, b) == Value(d, b))
            && (if o.owner == None then x.elements == d.elements && x.objects == d.objects[a := o.(value := v)]
                else exists i :: 0 <= i < |AttributesOf(d, o.owner.value)| && AttributesOf(d, o.owner.value)[i].name == o.name
                                 && Written(d, x, o.owner.value, i, v))
  {
    hide Inv, Value, Written, AttributesOf, SetValue;
    var x, o := SetValue(d, a, v), d.objects[a];
    if o.owner == None {
      SetFree(d, a, v);
    } else {
      var e := o.owner.value;
      SetOwned(d, a, v);
      var i :| 0 <= i < |AttributesOf(d, e)| && AttributesOf(d, e)[i].name == o.name && Written(d, x, e, i, v);
      var j := OwnedAt(d, a);
      WrittenReads(d, x, a, e, i, v);
    }
  }

  // An Attr object put where it stands for an attribute.

  lemma LetGoFrame(d: Dom, e: nat, n: Name, value: string)
    requires e < |d.elements|
    ensures forall f: nat :: AttributesOf(LetGo(d, e, n, value), f) == AttributesOf(d, f)
  {
    hide Place;
  }

  lemma AttrAtSame(d: Dom, e: nat, i: nat)
    requires e < |d.elements|
    ensures forall f: nat :: AttributesOf(AttrAt(d, e, i).dom, f) == AttributesOf(d, f)
  {
    hide Place;
  }

  lemma FreedFrame(d: Dom, e: nat, a: nat)
    requires e < |d.elements| && a < |d.objects|
    ensures forall f: nat :: AttributesOf(Freed(d, e, a), f) == AttributesOf(d, f)
  {
    var n := d.objects[a].name;
    var i := IndexOf(d.elements[e].attributes, n);
    hide AttributesOf, LetGo, AttrAt, IndexOf;
    if i.Some? {
      AttrAtSame(d, e, i.value);
      LetGoFrame(AttrAt(d, e, i.value).dom, e, n, d.elements[e].attributes[i.value].value);
    } else {
      LetGoFrame(d, e, n, "");
    }
  }

  /** The attribute of a name written with its prefix too, or added. */
  function Put(s: seq<Attribute>, t: Attribute): seq<Attribute> {
    var i := IndexOf(s, t.name);
    if i.Some? then s[i.value := t] else s + [t]
  }

  lemma PutIs(s: seq<Attribute>, t: Attribute)
    ensures var i := IndexOf(s, t.name);
            var u := if i.Some? then s[i.value := s[i.value].(value := t.value)] else s + [t];
            var j := IndexOf(u, t.name);
            j.Some? && u[j.value := u[j.value].(prefix := t.prefix)] == Put(s, t)
  {
    var i := IndexOf(s, t.name);
    var u := if i.Some? then s[i.value := s[i.value].(value := t.value)] else s + [t];
    FirstIs(s, t.name);
    FirstAt(u, t.name, if i.Some? then i.value else |s|);
    hide IndexOf;
  }

  lemma SettledPuts(d: Dom, e: nat, a: nat)
    requires Inv(d) && e < |d.elements| && a < |d.objects| && OwnerElement(d, a) == None
    ensures var o := d.objects[a];
            && AttributesOf(Settled(d, e, a), e) == Put(AttributesOf(d, e), Attribute(o.name, o.prefix, o.value))
            && forall f: nat :: f != e ==> AttributesOf(Settled(d, e, a), f) == AttributesOf(d, f)
  {
    FreedFrame(d, e, a);
    var o, f := d.objects[a], Freed(d, e, a);
    var t := Attribute(o.name, o.prefix, o.value);
    PutIs(AttributesOf(d, e), t);
    assert AttributesOf(d, e) == f.elements[e].attributes by {
      assert AttributesOf(f, e) == AttributesOf(d, e);
    }
    hide Inv, OwnerElement, Freed, IndexOf, Put;
  }

  /** The attribute of the name of t is t now, and only where there was none, one was added. */
  ghost predicate PutIn(d: Dom, x: Dom, e: nat, t: Attribute) {
    var s := AttributesOf(d, e);
    if forall i :: 0 <= i < |s| ==> s[i].name != t.name then OneMore(d, x, e, t)
    else exists i :: 0 <= i < |s| && s[i].name == t.name && OnlyAt(d, x, e, i, t)
  }

  lemma PutOnly(d: Dom, x: Dom, e: nat, t: Attribute)
    requires |x.elements| == |d.elements| && AttributesOf(x, e) == Put(AttributesOf(d, e), t)
    requires forall f: nat :: f != e ==> AttributesOf(x, f) == AttributesOf(d, f)
    ensures PutIn(d, x, e, t)
  {
    var s := AttributesOf(d, e);
    var i := IndexOf(s, t.name);
    hide IndexOf, AttributesOf;
    if i.Some? {
      assert OnlyAt(d, x, e, i.value, t);
    }
  }

  /**
   `setAttributeNode`: the attribute of the object's name is written as the object is, prefix and value; only where there is
   none, one is added.
   */
  lemma PutNodeWrites(d: Dom, e: nat, a: nat)
    requires Inv(d) && Can(d, PutNode(e, a)) && d.objects[a].owner == None
    ensures var o := d.objects[a]; PutIn(d, Do(d, PutNode(e, a)), e, Attribute(o.name, o.prefix, o.value))
  {
    OwnedStands(d, a);
    PutIsNode(d, e, a);
    hide *;
    SetNodeIs(d, e, a);
    SettledPuts(d, e, a);
    var o := d.objects[a];
    PutOnly(d, Settled(d, e, a), e, Attribute(o.name, o.prefix, o.value));
  }

  lemma PutIsNode(d: Dom, e: nat, a: nat)
    requires Can(d, PutNode(e, a))
    ensures e < |d.elements| && a < |d.objects| && Do(d, PutNode(e, a)) == SetNode(d, e, a).dom
  {
    hide SetNode;
  }

  // What no operation but the writes of a value can change.

  /** What the first read of an attribute's object answers: an object of that element, name and prefix, that reads the attribute. */
  lemma GetAttrAnswers(d: Dom, e: nat, i: nat)
    requires Inv(d) && Can(d, GetAttr(e, i))
    ensures var r, s := AttrAt(d, e, i), AttributesOf(d, e);
            && r.dom == Do(d, GetAttr(e, i))
            && if i >= |s| then r.answer == Null && r.dom == d
               else
                 && r.answer.Object? && r.answer.a < |r.dom.objects|
                 && r.dom.objects[r.answer.a].owner == Some(e) && r.dom.objects[r.answer.a].name == s[i].name
                 && (r.answer.a < |d.objects| || r.dom.objects[r.answer.a].prefix == s[i].prefix)
                 && Value(r.dom, r.answer.a) == s[i].value
  {
    if i < |AttributesOf(d, e)| {
      AttrAtOwned(d, e, i);
      AttrAtSame(d, e, i);
      AttrAtKeeps(d, e, i);
      AttrAtNew(d, e, i);
      var r := AttrAt(d, e, i);
      hide Inv, AttrAt, AttributesOf, Value;
      ValueOwned(r.dom, r.answer.a, e, i);
    }
  }

  /** An object is made only where there was none, and is the only one made. */
  lemma AttrAtNew(d: Dom, e: nat, i: nat)
    requires e < |d.elements| && i < |AttributesOf(d, e)|
    ensures var r := AttrAt(d, e, i);
            && r.answer.Object?
            && (r.answer.a < |d.objects| ==> r.dom == d)
            && (r.answer.a >= |d.objects| ==>
                  |r.dom.objects| == |d.objects| + 1 && r.answer.a == |d.objects| && r.dom.objects[..|d.objects|] == d.objects
                  && r.dom.objects[|d.objects|].prefix == AttributesOf(d, e)[i].prefix)
  {
    var p := Place(d, d.elements[e].attrs, d.elements[e].attributes[i].name);
    hide Place;
  }

  /** A new element has no attributes, a new object no owner; it reads what it was made with. */
  lemma NewBegins(d: Dom, n: Name, prefix: string, v: string)
    ensures var x, k := Do(d, NewElement), |d.elements|;
            |x.elements| == k + 1 && x.elements[..k] == d.elements && x.objects == d.objects && AttributesOf(x, k) == [] && x.elements[k].attrs == []
    ensures Can(d, NewAttr(n, prefix, v)) ==>
              var x, k := Do(d, NewAttr(n, prefix, v)), |d.objects|;
              && x.elements == d.elements && |x.objects| == k + 1 && x.objects[..k] == d.objects
              && x.objects[k].owner == None && x.objects[k].name == n && x.objects[k].prefix == prefix && Value(x, k) == v
  {
  }

  /** f has an attribute n that reads v. */
  ghost predicate Carries(d: Dom, f: nat, n: Name, v: string) {
    exists j :: 0 <= j < |AttributesOf(d, f)| && AttributesOf(d, f)[j].name == n && AttributesOf(d, f)[j].value == v
  }

  lemma CarriesAt(d: Dom, f: nat, n: Name, v: string, j: nat)
    requires j < |AttributesOf(d, f)| && AttributesOf(d, f)[j].name == n && AttributesOf(d, f)[j].value == v
    ensures Carries(d, f, n, v)
  {
  }

  lemma LacksCarries(d: Dom, x: Dom, e: nat, i: nat, f: nat, n: Name, v: string)
    requires e < |d.elements| && i < |d.elements[e].attributes| && Lacks(d, x, e, i) && Carries(d, f, n, v)
    requires f == e ==> d.elements[e].attributes[i].name != n
    ensures Carries(x, f, n, v)
  {
    var j :| 0 <= j < |AttributesOf(d, f)| && AttributesOf(d, f)[j].name == n && AttributesOf(d, f)[j].value == v;
    CarriesAt(x, f, n, v, if f == e && j > i then j - 1 else j);
    hide Carries;
  }

  lemma OnlyCarries(d: Dom, x: Dom, e: nat, i: nat, t: Attribute, f: nat, n: Name, v: string)
    requires OnlyAt(d, x, e, i, t) && Carries(d, f, n, v) && (f == e ==> AttributesOf(d, e)[i].name != n)
    ensures Carries(x, f, n, v)
  {
    hide AttributesOf;
    var j :| 0 <= j < |AttributesOf(d, f)| && AttributesOf(d, f)[j].name == n && AttributesOf(d, f)[j].value == v;
    assert AttributesOf(x, f)[j] == AttributesOf(d, f)[j];
  }

  lemma MoreCarries(d: Dom, x: Dom, e: nat, t: Attribute, f: nat, n: Name, v: string)
    requires OneMore(d, x, e, t) && Carries(d, f, n, v)
    ensures Carries(x, f, n, v)
  {
    hide AttributesOf;
    var j :| 0 <= j < |AttributesOf(d, f)| && AttributesOf(d, f)[j].name == n && AttributesOf(d, f)[j].value == v;
    assert AttributesOf(x, f)[j] == AttributesOf(d, f)[j];
  }

  predicate WritesValue(op: Op) { op.SetByName? || op.SetByNs? || op.SetObjectValue? }

  /** What an object stands for, unless it is taken, stays with its value. */
  lemma RemoveNsCarries(d: Dom, e: nat, m: Name, f: nat, n: Name, v: string)
    requires Inv(d) && e < |d.elements| && Carries(d, f, n, v) && (f == e ==> m != n)
    ensures Carries(RemoveNs(d, e, m), f, n, v)
  {
    RemovedGone(d, e, m);
    hide Inv, RemoveNs, Carries, Lacks;
    if Has(d.elements[e].attributes, m) {
      var s, x := d.elements[e].attributes, RemoveNs(d, e, m);
      var i :| 0 <= i < |s| && s[i].name == m && Lacks(d, x, e, i);
      LacksCarries(d, x, e, i, f, n, v);
    }
  }

  lemma RemoveCarries(d: Dom, e: nat, q: string, f: nat, n: Name, v: string)
    requires e < |d.elements| && Carries(d, f, n, v)
    requires f == e ==> var i := IndexQualified(d.elements[e].attributes, q); i.None? || d.elements[e].attributes[i.value].name != n
    ensures Carries(Remove(d, e, q), f, n, v)
  {
    var i := IndexQualified(d.elements[e].attributes, q);
    if i.Some? {
      EraseLacks(d, e, i.value);
      LacksCarries(d, Remove(d, e, q), e, i.value, f, n, v);
    }
    hide Erase, IndexQualified, Carries, Lacks;
  }

  lemma PutCarries(d: Dom, e: nat, a: nat, f: nat, n: Name, v: string)
    requires Inv(d) && Can(d, PutNode(e, a)) && Carries(d, f, n, v)
    requires f == e && d.objects[a].name == n ==> d.objects[a].owner.Some?
    ensures Carries(Do(d, PutNode(e, a)), f, n, v)
  {
    var x, o := Do(d, PutNode(e, a)), d.objects[a];
    var t := Attribute(o.name, o.prefix, o.value);
    hide Inv, Carries, OneMore, OnlyAt, SetNode, AttributesOf;
    if o.owner.Some? {
      SetNodeHeld(d, e, a);
    } else {
      PutNodeWrites(d, e, a);
      if OneMore(d, x, e, t) {
        MoreCarries(d, x, e, t, f, n, v);
      } else {
        var i :| 0 <= i < |AttributesOf(d, e)| && AttributesOf(d, e)[i].name == o.name && OnlyAt(d, x, e, i, t);
        OnlyCarries(d, x, e, i, t, f, n, v);
      }
    }
  }

  lemma OtherCarries(d: Dom, op: Op, a: nat, v: string)
    requires Inv(d) && Can(d, op) && !WritesValue(op) && a < |d.objects| && d.objects[a].owner.Some? && d.objects[a].owner.value < |d.elements|
    requires !Takes(d, op, d.objects[a].owner.value, a) && Carries(d, d.objects[a].owner.value, d.objects[a].name, v)
    ensures Carries(Do(d, op), d.objects[a].owner.value, d.objects[a].name, v)
  {
    var f, n := d.objects[a].owner.value, d.objects[a].name;
    hide Inv, Carries, AttrAt, Remove, RemoveNs, SetNode, OwnerElement, IndexQualified, AttributesOf;
    match op
    case NewElement => NewCarries(d, op, f, n, v);
    case NewAttr(_, _, _) => NewCarries(d, op, f, n, v);
    case GetAttr(e, i) =>
      AttrAtSame(d, e, i);
      SameCarries(d, Do(d, op), f, n, v);
    case RemoveByName(e, q) => RemoveCarries(d, e, q, f, n, v);
    case RemoveByNs(e, m) => RemoveNsCarries(d, e, m, f, n, v);
    case PutNode(e, b) =>
      OwnedStands(d, b);
      PutCarries(d, e, b, f, n, v);
    case TakeNode(e, b) =>
      OwnedStands(d, b);
      if d.objects[b].owner == Some(e) {
        if f == e && d.objects[b].name == n {
          SameObject(d, e, a, b);
        }
        RemoveNsCarries(d, e, d.objects[b].name, f, n, v);
      }
  }

  lemma SameCarries(d: Dom, x: Dom, f: nat, n: Name, v: string)
    requires AttributesOf(x, f) == AttributesOf(d, f) && Carries(d, f, n, v)
    ensures Carries(x, f, n, v)
  {
  }

  lemma NewCarries(d: Dom, op: Op, f: nat, n: Name, v: string)
    requires Can(d, op) && (op.NewElement? || op.NewAttr?) && f < |d.elements| && Carries(d, f, n, v)
    ensures Carries(Do(d, op), f, n, v)
  {
    assert AttributesOf(Do(d, op), f) == AttributesOf(d, f);
  }

  /** An object without an owner stays as it is while it is not put anywhere. */
  lemma FreeStays(d: Dom, op: Op, a: nat)
    requires Inv(d) && Can(d, op) && !WritesValue(op) && a < |d.objects| && d.objects[a].owner == None
    requires op.PutNode? ==> op.a != a
    ensures a < |Do(d, op).objects| && Do(d, op).objects[a] == d.objects[a]
  {
    hide Inv, IndexOf, IndexQualified, PrefixOk, Place, LetGo, SetNode;
    match op
    case GetAttr(e, i) => AttrAtFrame(d, e, i);
    case RemoveByName(e, q) =>
      var i := IndexQualified(d.elements[e].attributes, q);
      if i.Some? {
        EraseFree(d, e, i.value, a);
      }
    case RemoveByNs(e, n) => RemoveFree(d, e, n, a);
    case TakeNode(e, b) => RemoveFree(d, e, d.objects[b].name, a);
    case PutNode(e, b) => PutFree(d, e, b, a);
    case _ =>
  }

  lemma EraseFree(d: Dom, e: nat, i: nat, a: nat)
    requires Inv(d) && e < |d.elements| && i < |d.elements[e].attributes| && a < |d.objects| && d.objects[a].owner == None
    ensures Erase(d, e, i).objects[a] == d.objects[a]
  {
    EraseIs(d, e, i);
    var t := d.elements[e].attributes[i];
    LetGoEffect(d, e, t.name, t.value, a);
    hide Inv, LetGo, Erase;
  }

  lemma RemoveFree(d: Dom, e: nat, n: Name, a: nat)
    requires Inv(d) && e < |d.elements| && a < |d.objects| && d.objects[a].owner == None
    ensures RemoveNs(d, e, n).objects[a] == d.objects[a]
  {
    var i := IndexOf(d.elements[e].attributes, n);
    if i.Some? {
      EraseFree(d, e, i.value, a);
    }
    hide Inv, Erase, IndexOf;
  }

  lemma PutFree(d: Dom, e: nat, b: nat, a: nat)
    requires Inv(d) && e < |d.elements| && b < |d.objects| && a < |d.objects| && d.objects[a].owner == None && a != b
    ensures var x := SetNode(d, e, b).dom; a < |x.objects| && x.objects[a] == d.objects[a]
  {
    OwnedStands(d, b);
    if d.objects[b].owner.Some? {
      SetNodeHeld(d, e, b);
    } else {
      SetNodeIs(d, e, b);
      FreedFree(d, e, b, a);
    }
    hide Inv, SetNode, Freed, OwnerElement;
  }

  lemma FreedFree(d: Dom, e: nat, b: nat, a: nat)
    requires Inv(d) && e < |d.elements| && b < |d.objects| && a < |d.objects| && d.objects[a].owner == None
    ensures Freed(d, e, b).objects[a] == d.objects[a]
  {
    var n := d.objects[b].name;
    var i := IndexOf(d.elements[e].attributes, n);
    if i.Some? {
      AttrAtKeeps(d, e, i.value);
      AttrAtFrame(d, e, i.value);
      LetGoEffect(AttrAt(d, e, i.value).dom, e, n, d.elements[e].attributes[i.value].value, a);
    } else {
      LetGoEffect(d, e, n, "", a);
    }
    hide Inv, AttrAt, LetGo, IndexOf;
  }

  /**
   Only the writes of a value change what any Attr object reads: making, removing, replacing and moving attributes and objects
   leaves every one there was with the value it had, whether it stands for an attribute before and after or not.
   */
  lemma OthersReadOn(d: Dom, op: Op, a: nat)
    requires Inv(d) && Can(d, op) && !WritesValue(op) && a < |d.objects|
    ensures a < |Do(d, op).objects| && Value(Do(d, op), a) == Value(d, a)
  {
    hide Inv, Do, Can, Value, Takes, Carries, OwnerElement, SetNode, AttrAt;
    var x := Do(d, op);
    StepKeeps(d, op);
    if d.objects[a].owner.Some? {
      var j := OwnedAt(d, a);
      var f, n := d.objects[a].owner.value, d.objects[a].name;
      KeepsOrLeaves(d, op, f, a);
      if !Takes(d, op, f, a) {
        ValueOwned(d, a, f, j);
        CarriesAt(d, f, n, Value(d, a), j);
        OtherCarries(d, op, a, Value(d, a));
        CarriesReads(x, a);
      }
    } else if op.PutNode? && op.a == a {
      OwnedStands(d, a);
      PutReads(d, op.e, a);
    } else {
      FreeStays(d, op, a);
      FreeValue(d, a);
      FreeValue(x, a);
    }
  }

  lemma PutReads(d: Dom, e: nat, a: nat)
    requires Inv(d) && Can(d, PutNode(e, a)) && OwnerElement(d, a) == None
    ensures a < |Do(d, PutNode(e, a)).objects| && Value(Do(d, PutNode(e, a)), a) == Value(d, a)
  {
    hide Inv, Value, OwnerElement, SetNode, AttrAt;
    SetNodeAnswers(d, e, a);
  }

  lemma CarriesReads(x: Dom, a: nat)
    requires Inv(x) && a < |x.objects| && x.objects[a].owner.Some?
    ensures forall v :: Carries(x, x.objects[a].owner.value, x.objects[a].name, v) ==> Value(x, a) == v
  {
    hide Inv, Value, AttributesOf;
    var f, n := x.objects[a].owner.value, x.objects[a].name;
    forall v | Carries(x, f, n, v)
      ensures Value(x, a) == v
    {
      var j :| 0 <= j < |AttributesOf(x, f)| && AttributesOf(x, f)[j].name == n && AttributesOf(x, f)[j].value == v;
      ValueOwned(x, a, f, j);
    }
  }
}
