/** The fake JVM's object table as a list of entries; handle h denotes the entry at h - 1. */
module ObjectTable {
  import opened ClassNames

  /** The number of slots. */
  const LIMIT := 65536

  datatype Body =
    | None
    | Opaque
    | Method(klass: nat, name: string, signature: string)
    | Class(name: string)
    | Text(text: string)

  datatype Object = Object(thisClass: nat, body: Body)

  /** The comparators of jvm_find_object. */
  predicate Same(a: Object, b: Object) {
    a.body == b.body && a.body != None && (a.body.Opaque? ==> a.thisClass == b.thisClass)
  }

  /** The handle of the first entry that equals the needle, or NULL. */
  function IndexOf(t: seq<Object>, o: Object): (h: nat)
    ensures h <= |t| && (h > 0 ==> Same(o, t[h - 1]))
    ensures forall i :: 0 <= i < (if h == 0 then |t| else h - 1) ==> !Same(o, t[i])
  {
    if t == [] then 0
    else if Same(o, t[0]) then 1
    else
      var h := IndexOf(t[1..], o);
      assert forall i :: 1 <= i < |t| ==> t[i] == t[1..][i - 1];
      if h == 0 then 0 else h + 1
  }

  function ClassObject(name: string): Object {
    Object(1, Class(Replaced(name, {'/'}, '.')))
  }

  function DefaultClassName(b: Body): string
    requires b.Method? || b.Text?
  {
    if b.Method? then "java/lang/reflect/Method" else "java/lang/String"
  }

  /** An object that may be asked for: only methods and strings leave their class to the table. */
  predicate Wanted(t: seq<Object>, o: Object) {
    match o.body
    case None => false
    case Opaque => 0 < o.thisClass <= |t|
    case Class(_) => o.thisClass == 1
    case Method(_, _, _) => o.thisClass == 0
    case Text(_) => o.thisClass == 0
  }

  /** The table after an object is asked for: unchanged if it is there; otherwise the object comes
      last, followed by its class if that had to be left to the table and was not there either. */
  function Interned(t: seq<Object>, o: Object): seq<Object>
    requires Wanted(t, o)
  {
    if IndexOf(t, o) > 0 then t else Added(t, o)
  }

  function Added(t: seq<Object>, o: Object): seq<Object>
    requires Wanted(t, o)
  {
    if o.thisClass != 0 then t + [o] else
    var c := ClassObject(DefaultClassName(o.body));
    var h := IndexOf(t, c);
    if h > 0 then t + [o.(thisClass := h)] else t + [o.(thisClass := |t| + 2)] + [c]
  }

  // ---------------------------------------------------------------- the invariant

  predicate IsClass(t: seq<Object>, h: nat) {
    0 < h <= |t| && t[h - 1].body.Class?
  }

  /** The class of an entry: that of a class is the first entry, that of a method or a string is fixed. */
  predicate Classed(t: seq<Object>, o: Object) {
    match o.body
    case None => false
    case Opaque => 0 < o.thisClass <= |t|
    case Class(_) => o.thisClass == 1
    case Method(_, _, _) => IsClass(t, o.thisClass) && t[o.thisClass - 1] == ClassObject(DefaultClassName(o.body))
    case Text(_) => IsClass(t, o.thisClass) && t[o.thisClass - 1] == ClassObject(DefaultClassName(o.body))
  }

  predicate Unique(t: seq<Object>) {
    forall i, j :: 0 <= i < j < |t| ==> !Same(t[i], t[j])
  }

  /** The invariant of every run: the class of classes comes first, no two entries are equal, and
      every entry has a class. */
  predicate Sound(t: seq<Object>) {
    && |t| > 0 && t[0] == ClassObject("java/lang/Class")
    && Unique(t)
    && forall i :: 0 <= i < |t| ==> Classed(t, t[i])
  }

  /** The classes given to plain objects were classes. */
  predicate Typed(t: seq<Object>) {
    forall i :: 0 <= i < |t| && t[i].body.Opaque? ==> IsClass(t, t[i].thisClass)
  }

  // ---------------------------------------------------------------- finding

  lemma IndexIs(t: seq<Object>, o: Object, h: nat)
    requires h <= |t| && (h > 0 ==> Same(o, t[h - 1]))
    requires forall i :: 0 <= i < (if h == 0 then |t| else h - 1) ==> !Same(o, t[i])
    ensures IndexOf(t, o) == h
  {
    hide IndexOf;
  }

  lemma IndexAppend(t: seq<Object>, x: Object, o: Object)
    ensures IndexOf(t + [x], o) == if IndexOf(t, o) > 0 then IndexOf(t, o) else if Same(o, x) then |t| + 1 else 0
  {
    hide IndexOf;
    var h := IndexOf(t, o);
    IndexIs(t + [x], o, if h > 0 then h else if Same(o, x) then |t| + 1 else 0);
  }

  /** A handle that was found once is found ever after. */
  lemma IndexStable(t: seq<Object>, t': seq<Object>, o: Object)
    requires t <= t' && IndexOf(t, o) > 0
    ensures IndexOf(t', o) == IndexOf(t, o)
  {
    hide IndexOf;
    IndexIs(t', o, IndexOf(t, o));
  }

  /** Different needles have different handles. */
  lemma IndexInjective(t: seq<Object>, o: Object, p: Object)
    requires IndexOf(t, o) == IndexOf(t, p) > 0
    ensures Same(o, p)
  {
    hide IndexOf;
  }

  lemma ClassedMore(t: seq<Object>, t': seq<Object>, o: Object)
    requires t <= t' && Classed(t, o)
    ensures Classed(t', o)
  {
    hide ClassObject, Replaced;
  }

  // ---------------------------------------------------------------- adding

  lemma UniqueAppend(t: seq<Object>, x: Object)
    requires Unique(t) && IndexOf(t, x) == 0
    ensures Unique(t + [x])
  {
    hide IndexOf;
    var t' := t + [x];
    forall i, j | 0 <= i < j < |t'| ensures !Same(t'[i], t'[j]) {
      if j == |t| {
        assert !Same(x, t[i]);
      }
    }
  }

  /** Entries whose classes exist can be appended. */
  lemma SoundAppend(t: seq<Object>, xs: seq<Object>)
    requires Sound(t) && Unique(t + xs) && forall x <- xs :: Classed(t + xs, x)
    ensures Sound(t + xs)
  {
    hide Unique, ClassObject;
    var t' := t + xs;
    forall i | 0 <= i < |t'| ensures Classed(t', t'[i]) {
      if i < |t| {
        assert Classed(t, t[i]);
        ClassedMore(t, t', t[i]);
      } else {
        assert t'[i] == xs[i - |t|];
      }
    }
  }

  /** The table only grows at its end. */
  lemma AddedGrows(t: seq<Object>, o: Object)
    requires Wanted(t, o)
    ensures t <= Added(t, o) && |t| < |Added(t, o)| <= |t| + 2 && Same(o, Added(t, o)[|t|])
    ensures o.body.Opaque? ==> Added(t, o)[|t|] == o
    ensures forall i :: |t| < i < |Added(t, o)| ==> Added(t, o)[i].body.Class?
  {
    hide IndexOf, Replaced;
  }

  lemma AddedSound(t: seq<Object>, o: Object)
    requires Sound(t) && Wanted(t, o) && IndexOf(t, o) == 0
    ensures Sound(Added(t, o))
  {
    hide IndexOf, Unique, Replaced;
    if o.thisClass != 0 {
      UniqueAppend(t, o);
      SoundAppend(t, [o]);
    } else {
      AddedSoundClass(t, o);
    }
  }

  lemma AddedSoundClass(t: seq<Object>, o: Object)
    requires Sound(t) && Wanted(t, o) && IndexOf(t, o) == 0 && o.thisClass == 0
    ensures Sound(Added(t, o))
  {
    hide IndexOf, Unique, Replaced;
    var c := ClassObject(DefaultClassName(o.body));
    var h := IndexOf(t, c);
    var x := o.(thisClass := if h > 0 then h else |t| + 2);
    IndexIs(t, x, 0);
    UniqueAppend(t, x);
    if h > 0 {
      ClassFound(t, c);
      SoundAppend(t, [x]);
    } else {
      IndexAppend(t, x, c);
      UniqueAppend(t + [x], c);
      assert t + [x] + [c] == t + [x, c];
      SoundAppend(t, [x, c]);
    }
  }

  /** A class that is found is the very entry asked for. */
  lemma ClassFound(t: seq<Object>, c: Object)
    requires Sound(t) && c.body.Class? && c.thisClass == 1 && IndexOf(t, c) > 0
    ensures t[IndexOf(t, c) - 1] == c
  {
    hide IndexOf, Unique, ClassObject;
    assert Classed(t, t[IndexOf(t, c) - 1]);
  }

  lemma AddedFound(t: seq<Object>, o: Object)
    requires Wanted(t, o) && IndexOf(t, o) == 0
    ensures IndexOf(Added(t, o), o) == |t| + 1
  {
    hide IndexOf, Added;
    AddedGrows(t, o);
    var t' := Added(t, o);
    forall i | 0 <= i < |t| ensures !Same(o, t'[i]) {
      assert t'[i] == t[i];
    }
    IndexIs(t', o, |t| + 1);
  }

  /** Plain objects are the only entries whose class may be wrong. */
  lemma AddedTyped(t: seq<Object>, o: Object)
    requires Wanted(t, o) && Sound(t)
    ensures Typed(Added(t, o)) <==> Typed(t) && (o.body.Opaque? ==> IsClass(t, o.thisClass))
  {
    hide IndexOf, Added, Unique, Replaced;
    AddedGrows(t, o);
    var t' := Added(t, o);
    forall i | 0 <= i < |t| && t[i].body.Opaque? ensures IsClass(t', t'[i].thisClass) <==> IsClass(t, t[i].thisClass) {
      assert Classed(t, t[i]);
    }
    assert Typed(t') ==> forall i :: 0 <= i < |t| && t[i].body.Opaque? ==> t'[i].body.Opaque?;
    assert o.body.Opaque? ==> t'[|t|] == o;
  }

  // ---------------------------------------------------------------- two hops

  /** GetObjectClass of a handle. */
  function ClassOf(t: seq<Object>, h: nat): nat
    requires 0 < h <= |t|
  {
    t[h - 1].thisClass
  }

  /** The class of the class of any handle is the first entry, whose class is itself. */
  lemma TwoHops(t: seq<Object>, h: nat)
    requires Sound(t) && Typed(t) && 0 < h <= |t|
    ensures IsClass(t, ClassOf(t, h)) && ClassOf(t, ClassOf(t, h)) == 1
  {
    hide Unique, Replaced;
    assert Classed(t, t[h - 1]);
    assert Classed(t, t[0]);
    assert IsClass(t, t[h - 1].thisClass);
    assert Classed(t, t[t[h - 1].thisClass - 1]);
  }
}
