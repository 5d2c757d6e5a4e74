/** The fake JVM: its object table is an array of slots that JNI calls search and fill. */
module Jvm {
  import opened ClassNames
  import opened ObjectTable
  import opened JniRequests
  import opened JniRuns

  /** The result of a call that may trip an assertion, which ends the process. */
  datatype Answer = Abort | Handle(h: nat)

  /** The used slots come first. */
  ghost predicate Filled(objects: seq<Object>, count: nat) {
    && |objects| == LIMIT && count <= LIMIT
    && (forall i :: 0 <= i < count ==> objects[i].body != None)
    && (forall i :: count <= i < LIMIT ==> objects[i].body == None)
  }

  lemma FilledAppend(objects: seq<Object>, count: nat, o: Object)
    requires Filled(objects, count) && count < LIMIT && o.body != None
    ensures Filled(objects[count := o], count + 1)
    ensures objects[count := o][..count + 1] == objects[..count] + [o]
  {
  }

  lemma FilledUpdate(objects: seq<Object>, count: nat, i: nat, o: Object)
    requires Filled(objects, count) && i < count && o.body != None
    ensures Filled(objects[i := o], count) && objects[i := o][..count] == objects[..count][i := o]
  {
  }

  class Jvm {
    var objects: seq<Object>
    ghost var count: nat

    ghost predicate Shape()
      reads this
    {
      Filled(objects, count)
    }

    ghost function Entries(): seq<Object>
      requires Shape()
      reads this
    {
      objects[..count]
    }

    ghost predicate Valid()
      reads this
    {
      Shape() && Sound(Entries())
    }

    /** jvm_find_object. */
    method Find(o: Object) returns (h: nat)
      requires Shape() && o.body != None
      ensures h == IndexOf(Entries(), o)
    {
      hide IndexOf;
      for i := 0 to LIMIT
        invariant forall j :: 0 <= j < i ==> !Same(o, objects[j])
      {
        if Same(o, objects[i]) {
          IndexIs(Entries(), o, i + 1);
          return i + 1;
        }
      }
      IndexIs(Entries(), o, 0);
      h := 0;
    }

    /** The first free slot, or the number of slots. */
    method FirstFree() returns (i: nat)
      requires Shape()
      ensures i == count
    {
      i := 0;
      while i < LIMIT && objects[i].body != None
        invariant i <= count
      {
        i := i + 1;
      }
    }

    /** jvm_add_object. */
    method Add(o: Object) returns (a: Answer)
      requires Shape() && Wanted(Entries(), o) && IndexOf(Entries(), o) == 0
      modifies this
      ensures a.Abort? <==> |Added(old(Entries()), o)| > LIMIT
      ensures a.Handle? ==> Shape() && Entries() == Added(old(Entries()), o) && a.h == old(count) + 1
      decreases if o.thisClass == 0 then 1 else 0, 0
    {
      hide Filled, IndexOf, Replaced;
      var i := FirstFree();
      AddedGrows(Entries(), o);
      SizeFacts(objects, count);
      if i == LIMIT {
        return Abort;
      }
      FilledAppend(objects, count, o);
      objects, count := objects[i := o], count + 1;
      if o.thisClass == 0 {
        a := AssignDefaultClass(i, o, old(Entries()));
        if a.Abort? {
          return;
        }
      }
      a := Handle(i + 1);
    }

    /** jvm_assign_default_class, for the last entry. */
    method AssignDefaultClass(i: nat, o: Object, ghost t: seq<Object>) returns (a: Answer)
      requires Shape() && i < LIMIT && i == |t| && Entries() == t + [o] && Wanted(t, o) && o.thisClass == 0
      modifies this
      ensures a.Abort? <==> |Added(t, o)| > LIMIT
      ensures a.Handle? ==> Shape() && Entries() == Added(t, o)
      decreases 0, 3
    {
      hide Filled, IndexOf, Replaced;
      ghost var c := ClassObject(DefaultClassName(o.body));
      IndexAppend(t, o, c);
      SizeFacts(objects, count);
      a := MakeClass(DefaultClassName(o.body));
      if a.Handle? {
        DefaultAdded(t, o);
        SizeFacts(objects, count);
        FilledUpdate(objects, count, i, o.(thisClass := a.h));
        objects := objects[i := objects[i].(thisClass := a.h)];
      }
    }

    /** jvm_add_object_if_not_there. */
    method AddIfNotThere(o: Object) returns (a: Answer)
      requires Shape() && Wanted(Entries(), o)
      modifies this
      ensures a.Abort? <==> |Interned(old(Entries()), o)| > LIMIT
      ensures a.Handle? ==> Shape() && Entries() == Interned(old(Entries()), o) && a.h == IndexOf(Entries(), o)
      decreases if o.thisClass == 0 then 1 else 0, 1
    {
      hide Filled, IndexOf, Replaced, Added;
      SizeFacts(objects, count);
      var h := Find(o);
      if h > 0 {
        return Handle(h);
      }
      AddedFound(Entries(), o);
      a := Add(o);
    }

    /** jvm_make_class. An empty name has no characters to rewrite, which trips an assertion. */
    method MakeClass(name: string) returns (a: Answer)
      requires Shape()
      modifies this
      ensures a.Abort? <==> name == "" || |Interned(old(Entries()), ClassObject(name))| > LIMIT
      ensures a.Handle? ==> Shape() && Entries() == Interned(old(Entries()), ClassObject(name))
      ensures a.Handle? ==> a.h == IndexOf(Entries(), ClassObject(name))
      decreases 0, 2
    {
      hide Filled, IndexOf, Replaced, Added;
      if name == "" {
        return Abort;
      }
      var copy := new char[|name|](i requires 0 <= i < |name| => name[i]);
      assert copy[..] == name;
      CstrReplace(copy, {'/'}, '.');
      a := AddIfNotThere(Object(1, Class(copy[..])));
    }

    /** jvm_init. */
    constructor ()
      ensures Valid() && Entries() == [ClassObject("java/lang/Class")] && Typed(Entries())
    {
      hide IndexOf, Replaced, Interned, Sound, Filled;
      objects := seq(LIMIT, _ => Object(0, None));
      count := 0;
      new;
      FirstEntry(objects);
      var _ := MakeClass("java/lang/Class");
    }

    // -------------------------------------------------------------- JNI calls

    /** FindClass. */
    method FindClass(name: string) returns (a: Answer)
      requires Valid()
      modifies this
      ensures a.Abort? <==> name == "" || Overflows(old(Entries()), Request.FindClass(name))
      ensures a.Handle? ==> Valid() && Answers(old(Entries()), Request.FindClass(name), Entries(), a.h)
    {
      hide Filled, IndexOf, Replaced, Interned, Sound;
      AfterSound(Entries(), Request.FindClass(name));
      a := MakeClass(name);
    }

    /** GetMethodID and its like; a NULL class gives a NULL method. */
    method GetMethodId(klass: nat, name: string, signature: string) returns (a: Answer)
      requires Valid() && klass <= |Entries()|
      modifies this
      ensures a.Abort? <==> Overflows(old(Entries()), Request.GetMethodId(klass, name, signature))
      ensures a.Handle? ==>
        Valid() && Answers(old(Entries()), Request.GetMethodId(klass, name, signature), Entries(), a.h)
    {
      hide Filled, IndexOf, Replaced, Interned, Sound;
      SizeFacts(objects, count);
      AfterSound(Entries(), Request.GetMethodId(klass, name, signature));
      if klass == 0 {
        return Handle(0);
      }
      a := AddIfNotThere(Object(0, Method(klass, name, signature)));
    }

    /** NewStringUTF. */
    method NewStringUTF(text: string) returns (a: Answer)
      requires Valid()
      modifies this
      ensures a.Abort? <==> Overflows(old(Entries()), Request.NewString(text))
      ensures a.Handle? ==> Valid() && Answers(old(Entries()), Request.NewString(text), Entries(), a.h)
    {
      hide Filled, IndexOf, Replaced, Interned, Sound;
      AfterSound(Entries(), Request.NewString(text));
      a := AddIfNotThere(Object(0, Text(text)));
    }

    /** AllocObject; a NULL class stands for java/lang/Object. */
    method AllocObject(klass: nat) returns (a: Answer)
      requires Valid() && klass <= |Entries()|
      modifies this
      ensures a.Abort? <==> Overflows(old(Entries()), Request.AllocObject(klass))
      ensures a.Handle? ==> Valid() && Answers(old(Entries()), Request.AllocObject(klass), Entries(), a.h)
    {
      hide Filled, IndexOf, Replaced, Interned, Sound;
      AfterSound(Entries(), Request.AllocObject(klass));
      AllocSteps(Entries(), klass);
      var k := klass;
      if k == 0 {
        a := MakeClass("java/lang/Object");
        if a.Abort? {
          return;
        }
        k := a.h;
      }
      a := AddIfNotThere(Object(k, Opaque));
    }

    /** GetObjectClass; a NULL object has the class java/lang/Object. */
    method GetObjectClass(obj: nat) returns (a: Answer)
      requires Valid() && obj <= |Entries()|
      modifies this
      ensures a.Abort? <==> Overflows(old(Entries()), Request.GetObjectClass(obj))
      ensures a.Handle? ==> Valid() && Answers(old(Entries()), Request.GetObjectClass(obj), Entries(), a.h)
    {
      hide Filled, IndexOf, Replaced, Interned, Sound;
      SizeFacts(objects, count);
      AfterSound(Entries(), Request.GetObjectClass(obj));
      if obj == 0 {
        a := MakeClass("java/lang/Object");
      } else {
        a := Handle(objects[obj - 1].thisClass);
      }
    }

    /** GetStringUTFChars. An empty string has no characters to point to. */
    method GetStringUTFChars(str: nat) returns (chars: Chars)
      requires Valid() && str <= |Entries()|
      ensures chars == CharsOf(Entries(), str)
    {
      hide Filled, Sound;
      SizeFacts(objects, count);
      if str == 0 {
        return NoChars;
      }
      var o := objects[str - 1];
      chars := if o.body.Text? && o.body.text != "" then Chars(o.body.text) else NoChars;
    }

    /** Any run of requests: each is answered as specified, from the table that the earlier ones left,
        and the run ends early exactly at a request that trips an assertion. */
    method Serve(requests: seq<Request>) returns (results: seq<nat>, aborted: bool, ghost trace: seq<seq<Object>>)
      requires Valid()
      modifies this
      ensures Run(requests, results, trace) && trace[0] == old(Entries())
      ensures !aborted ==> |results| == |requests| && Valid() && Entries() == trace[|results|]
      ensures aborted ==> |results| < |requests| && Fails(trace[|results|], requests[|results|])
    {
      hide Filled, Sound, Run, Step, Fails;
      results, aborted, trace := [], false, [Entries()];
      RunStarts(requests, Entries());
      for k := 0 to |requests|
        invariant Valid() && |results| == k && |trace| == k + 1 && Entries() == trace[k] && trace[0] == old(Entries())
        invariant Run(requests, results, trace)
      {
        var a := ServeOne(requests[k]);
        if a.Abort? {
          aborted := true;
          return;
        }
        RunMore(requests, results, trace, a.h, Entries());
        results, trace := results + [a.h], trace + [Entries()];
      }
    }

    method ServeOne(r: Request) returns (a: Answer)
      requires Valid()
      modifies this
      ensures a.Abort? <==> Fails(old(Entries()), r)
      ensures a.Handle? ==> Valid() && Step(old(Entries()), r, a.h, Entries())
    {
      hide Filled, Sound, Answers, Overflows;
      var known := KnownHandles();
      OverflowsProper(Entries(), r);
      match r {
        case FindClass(name) => a := FindClass(name);
        case GetMethodId(klass, name, signature) =>
          if klass > known {
            return Handle(0);
          }
          a := GetMethodId(klass, name, signature);
        case NewString(text) => a := NewStringUTF(text);
        case AllocObject(klass) =>
          if klass > known {
            return Handle(0);
          }
          a := AllocObject(klass);
        case GetObjectClass(obj) =>
          if obj > known {
            return Handle(0);
          }
          a := GetObjectClass(obj);
      }
    }

    method KnownHandles() returns (n: nat)
      requires Shape()
      ensures n == |Entries()|
    {
      n := FirstFree();
    }
  }

  lemma OverflowsProper(t: seq<Object>, r: Request)
    ensures Overflows(t, r) ==> Proper(t, r)
  {
    hide Sound, After;
  }

  /** What an allocation without a class goes through. */
  lemma AllocSteps(t: seq<Object>, klass: nat)
    requires Sound(t) && klass <= |t|
    ensures var t1 := if klass == 0 then WithRoot(t) else t;
      var o := Object(if klass == 0 then IndexOf(t1, RootClass()) else klass, Opaque);
      && Wanted(t1, o) && After(t, Request.AllocObject(klass)) == Interned(t1, o)
      && |t1| <= |After(t, Request.AllocObject(klass))|
      && Result(t, Request.AllocObject(klass)) == IndexOf(Interned(t1, o), o)
  {
    hide IndexOf, Sound, Replaced, Interned;
    var r := Request.AllocObject(klass);
    PreparedWanted(t, r);
    InternedSound(Prepared(t, r), Needle(Prepared(t, r), r));
  }

  lemma FirstEntry(objects: seq<Object>)
    requires |objects| == LIMIT && forall i :: 0 <= i < LIMIT ==> objects[i].body == None
    ensures Filled(objects, 0) && objects[..0] == []
    ensures Wanted([], ClassObject("java/lang/Class"))
    ensures Interned([], ClassObject("java/lang/Class")) == [ClassObject("java/lang/Class")]
    ensures Sound([ClassObject("java/lang/Class")])
  {
    hide Replaced;
  }

  lemma SizeFacts(objects: seq<Object>, count: nat)
    requires Filled(objects, count)
    ensures |objects| == LIMIT && count <= LIMIT && |objects[..count]| == count
  {
  }

  /** The class of an added method or string ends up where the recursive call puts it. */
  lemma DefaultAdded(t: seq<Object>, o: Object)
    requires Wanted(t, o) && o.thisClass == 0
    ensures var c := ClassObject(DefaultClassName(o.body));
      var t1 := Interned(t + [o], c);
      |t1| > |t| && t1[|t|] == o && Added(t, o) == t1[|t| := o.(thisClass := IndexOf(t1, c))]
  {
    hide IndexOf, Replaced;
    var c := ClassObject(DefaultClassName(o.body));
    IndexAppend(t, o, c);
    IndexAppend(t + [o], c, c);
  }
}
