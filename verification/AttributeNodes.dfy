/**
 The operations on Attr objects as they are written (src/bindings/Attributes.cpp, src/bindings/Realm.cpp): searches by
 loops, and fields changed in place. Each comes to the function of Attributes by its name.
 */
module AttributeNodes {
  import opened Wrappers
  import opened Attributes

  lemma {:induction false} PlaceAt(d: Dom, attrs: seq<nat>, n: Name, k: nat)
    requires k < |attrs| && attrs[k] < |d.objects| && d.objects[attrs[k]].name == n
    requires forall j :: 0 <= j < k && attrs[j] < |d.objects| ==> d.objects[attrs[j]].name != n
    ensures Place(d, attrs, n) == Some(k)
    decreases |attrs|
  {
    if k > 0 {
      PlaceAt(d, attrs[1..], n, k - 1);
    }
  }

  lemma {:induction false} QualifiedAt(s: seq<Attribute>, q: string, i: nat)
    requires i < |s| && Qualified(s[i].prefix, s[i].name.local) == q
    requires forall k :: 0 <= k < i ==> Qualified(s[k].prefix, s[k].name.local) != q
    ensures IndexQualified(s, q) == Some(i)
    decreases |s|
  {
    if i > 0 {
      QualifiedAt(s[1..], q, i - 1);
    }
  }

  class Document {
    var elements: seq<Element>
    var objects: seq<AttrObject>

    constructor ()
      ensures State() == Dom([], [])
    {
      elements, objects := [], [];
    }

    function State(): Dom
      reads this
    {
      Dom(elements, objects)
    }

    /** The attribute of a name, searched for from the first. */
    method FindAttribute(e: nat, n: Name) returns (at: Option<nat>)
      requires e < |elements|
      ensures at == IndexOf(elements[e].attributes, n)
    {
      hide IndexOf;
      var s := elements[e].attributes;
      for i := 0 to |s|
        invariant forall k :: 0 <= k < i ==> s[k].name != n
      {
        if s[i].name == n {
          FirstAt(s, n, i);
          return Some(i);
        }
      }
      at := None;
    }

    /** The object for a name in a map, searched for from the first. */
    method FindObject(e: nat, n: Name) returns (at: Option<nat>)
      requires e < |elements|
      ensures at == Place(State(), elements[e].attrs, n)
    {
      hide Place;
      var m := elements[e].attrs;
      for k := 0 to |m|
        invariant forall j :: 0 <= j < k && m[j] < |objects| ==> objects[m[j]].name != n
      {
        if m[k] < |objects| && objects[m[k]].name == n {
          PlaceAt(State(), m, n, k);
          return Some(k);
        }
      }
      at := None;
    }

    method AttrAt(e: nat, i: nat) returns (answer: Answer)
      requires e < |elements|
      modifies this
      ensures Result(State(), answer) == Attributes.AttrAt(old(State()), e, i)
    {
      hide Place;
      var x := elements[e];
      if i >= |x.attributes| {
        return Null;
      }
      var t := x.attributes[i];
      var p := FindObject(e, t.name);
      if p.Some? {
        return Object(x.attrs[p.value]);
      }
      answer := Object(|objects|);
      elements := elements[e := x.(attrs := x.attrs + [|objects|])];
      objects := objects + [AttrObject(Some(e), t.name, t.prefix, "")];
    }

    method LetGo(e: nat, n: Name, value: string)
      requires e < |elements|
      modifies this
      ensures State() == Attributes.LetGo(old(State()), e, n, value)
    {
      hide Place;
      var p := FindObject(e, n);
      if p.None? {
        return;
      }
      var m := elements[e].attrs;
      var a := m[p.value];
      objects := objects[a := objects[a].(owner := None, value := value)];
      elements := elements[e := elements[e].(attrs := m[..p.value] + m[p.value + 1..])];
    }

    method SetAttributeNs(e: nat, n: Name, prefix: string, value: string)
      requires e < |elements|
      modifies this
      ensures State() == SetNs(old(State()), e, n, prefix, value)
    {
      hide IndexOf;
      var s := elements[e].attributes;
      var i := FindAttribute(e, n);
      if i.Some? {
        s := s[i.value := s[i.value].(value := value)];
      } else {
        s := s + [Attribute(n, prefix, value)];
      }
      elements := elements[e := elements[e].(attributes := s)];
    }

    method SetAttribute(e: nat, qualified: string, value: string)
      requires e < |elements|
      modifies this
      ensures State() == Set(old(State()), e, qualified, value)
    {
      hide IndexQualified;
      var s := elements[e].attributes;
      for i := 0 to |s|
        invariant forall k :: 0 <= k < i ==> Qualified(s[k].prefix, s[k].name.local) != qualified
        invariant State() == old(State())
      {
        if Qualified(s[i].prefix, s[i].name.local) == qualified {
          QualifiedAt(s, qualified, i);
          elements := elements[e := elements[e].(attributes := s[i := s[i].(value := value)])];
          return;
        }
      }
      elements := elements[e := elements[e].(attributes := s + [Attribute(Name("", qualified), "", value)])];
    }

    method RemoveAttributeNs(e: nat, n: Name)
      requires e < |elements|
      modifies this
      ensures State() == RemoveNs(old(State()), e, n)
    {
      hide IndexOf, Attributes.LetGo;
      var i := FindAttribute(e, n);
      if i.None? {
        return;
      }
      var s := elements[e].attributes;
      elements := elements[e := elements[e].(attributes := s[..i.value] + s[i.value + 1..])];
      LetGo(e, s[i.value].name, s[i.value].value);
    }

    /** The element an object stands for an attribute of. */
    method OwnerOf(a: nat) returns (e: Option<nat>)
      requires a < |objects|
      ensures e == OwnerElement(State(), a)
    {
      hide IndexOf;
      e := objects[a].owner;
      if e.Some? && e.value < |elements| {
        var i := FindAttribute(e.value, objects[a].name);
        if i.Some? {
          return;
        }
      }
      e := None;
    }

    method SetAttributeNode(e: nat, a: nat) returns (answer: Answer)
      requires e < |elements| && a < |objects|
      modifies this
      ensures Result(State(), answer) == SetNode(old(State()), e, a)
    {
      hide IndexOf, Attributes.LetGo, Attributes.AttrAt, SetNs, OwnerElement, Value;
      ghost var d := State();
      var value := Value(State(), a);
      var holder := OwnerOf(a);
      if holder.Some? {
        return if holder.value != e then InUse else Object(a);
      }
      var o := objects[a];
      var i := FindAttribute(e, o.name);
      answer := Null;
      var was := "";
      if i.Some? {
        was := elements[e].attributes[i.value].value;
        answer := AttrAt(e, i.value);
        assert State() == Attributes.AttrAt(d, e, i.value).dom;
      }
      if answer == Object(a) {
        return;
      }
      LetGo(e, o.name, was);
      elements := elements[e := elements[e].(attrs := elements[e].attrs + [a])];
      objects := objects[a := objects[a].(owner := Some(e), value := "")];
      SetAttributeNs(e, o.name, o.prefix, value);
      var j := FindAttribute(e, o.name);
      if j.Some? {
        var s := elements[e].attributes;
        elements := elements[e := elements[e].(attributes := s[j.value := s[j.value].(prefix := o.prefix)])];
      }
    }

    method RemoveAttributeNode(e: nat, a: nat) returns (answer: Answer)
      requires e < |elements| && a < |objects|
      modifies this
      ensures Result(State(), answer) == RemoveNode(old(State()), e, a)
    {
      hide RemoveNs, OwnerElement;
      var owner := OwnerOf(a);
      if owner != Some(e) {
        return NotFound;
      }
      RemoveAttributeNs(e, objects[a].name);
      answer := Object(a);
    }
  }
}
