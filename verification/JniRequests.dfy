/** What the JNI calls that create or read objects do to the object table. */
module JniRequests {
  import opened ClassNames
  import opened ObjectTable

  datatype Request =
    | FindClass(name: string)
    | GetMethodId(klass: nat, name: string, signature: string)
    | NewString(text: string)
    | AllocObject(klass: nat)
    | GetObjectClass(obj: nat)

  /** The handles in a request are NULL or were given out before. */
  predicate Proper(t: seq<Object>, r: Request) {
    match r
    case FindClass(_) => true
    case GetMethodId(k, _, _) => k <= |t|
    case NewString(_) => true
    case AllocObject(k) => k <= |t|
    case GetObjectClass(h) => h <= |t|
  }

  function RootClass(): Object {
    ClassObject("java/lang/Object")
  }

  /** The table after the generic class is asked for, and that class. */
  function WithRoot(t: seq<Object>): seq<Object> {
    Interned(t, RootClass())
  }

  /** The object that a request asks for, in a table that holds what it refers to. */
  function Needle(t: seq<Object>, r: Request): Object
    requires Proper(t, r) && Asks(r)
  {
    match r
    case FindClass(name) => ClassObject(name)
    case GetMethodId(k, name, signature) => Object(0, Method(k, name, signature))
    case NewString(text) => Object(0, Text(text))
    case AllocObject(k) => Object(if k == 0 then IndexOf(t, RootClass()) else k, Opaque)
    case GetObjectClass(_) => RootClass()
  }

  /** Requests that ask for an object; the others only read the table. */
  predicate Asks(r: Request) {
    && (r.GetMethodId? ==> r.klass != 0)
    && (r.GetObjectClass? ==> r.obj == 0)
  }

  /** The table before the object itself is looked up. */
  function Prepared(t: seq<Object>, r: Request): seq<Object> {
    if r == AllocObject(0) then WithRoot(t) else t
  }

  function After(t: seq<Object>, r: Request): seq<Object>
    requires Proper(t, r) && Sound(t)
  {
    if Asks(r) then
      PreparedWanted(t, r);
      Interned(Prepared(t, r), Needle(Prepared(t, r), r))
    else t
  }

  function Result(t: seq<Object>, r: Request): nat
    requires Proper(t, r) && Sound(t)
  {
    if Asks(r) then
      PreparedWanted(t, r);
      IndexOf(After(t, r), Needle(Prepared(t, r), r))
    else if r.GetObjectClass? then ClassOf(t, r.obj)
    else 0
  }

  /** The outcome of a call, against the table before it. */
  ghost predicate Answers(t: seq<Object>, r: Request, t': seq<Object>, h: nat) {
    Sound(t) && Proper(t, r) && t' == After(t, r) && h == Result(t, r)
  }

  /** The table would need more slots than there are. */
  ghost predicate Overflows(t: seq<Object>, r: Request) {
    Sound(t) && Proper(t, r) && |After(t, r)| > LIMIT
  }

  lemma RootInterned(t: seq<Object>)
    requires Sound(t)
    ensures Sound(WithRoot(t)) && t <= WithRoot(t) && IndexOf(WithRoot(t), RootClass()) > 0
    ensures Typed(WithRoot(t)) <==> Typed(t)
  {
    InternedSound(t, RootClass());
  }

  lemma InternedSound(t: seq<Object>, o: Object)
    requires Sound(t) && Wanted(t, o)
    ensures Sound(Interned(t, o)) && t <= Interned(t, o) && IndexOf(Interned(t, o), o) > 0
    ensures Typed(Interned(t, o)) <==> Typed(t) && (o.body.Opaque? ==> IsClass(t, o.thisClass))
  {
    hide IndexOf, Sound, Added;
    if IndexOf(t, o) == 0 {
      AddedSound(t, o);
      AddedGrows(t, o);
      AddedFound(t, o);
      AddedTyped(t, o);
    } else {
      assert Same(o, t[IndexOf(t, o) - 1]);
    }
  }

  lemma PreparedWanted(t: seq<Object>, r: Request)
    requires Proper(t, r) && Sound(t) && Asks(r)
    ensures t <= Prepared(t, r) && Sound(Prepared(t, r)) && Proper(Prepared(t, r), r)
    ensures Wanted(Prepared(t, r), Needle(Prepared(t, r), r))
    ensures Typed(Prepared(t, r)) <==> Typed(t)
  {
    hide IndexOf, Sound, Typed, Replaced;
    RootInterned(t);
    hide Interned;
  }

  /** Every call keeps the invariant and the entries that were there. */
  lemma AfterSound(t: seq<Object>, r: Request)
    requires Sound(t)
    ensures Proper(t, r) ==> Sound(After(t, r)) && t <= After(t, r)
  {
    hide IndexOf, Sound, Interned, Needle, Prepared;
    if Proper(t, r) && Asks(r) {
      PreparedWanted(t, r);
      InternedSound(Prepared(t, r), Needle(Prepared(t, r), r));
    }
  }

  /** The classes of plain objects stay classes exactly as long as callers pass classes as classes. */
  lemma AfterTyped(t: seq<Object>, r: Request)
    requires Sound(t) && Proper(t, r)
    ensures Typed(After(t, r)) <==> Typed(t) && (r.AllocObject? && r.klass != 0 ==> IsClass(t, r.klass))
  {
    hide IndexOf, Sound, Interned, Typed, Replaced;
    if Asks(r) {
      PreparedWanted(t, r);
      InternedSound(Prepared(t, r), Needle(Prepared(t, r), r));
      if r == AllocObject(0) {
        RootInterned(t);
        RootIsClass(WithRoot(t));
      }
    }
  }

  lemma RootIsClass(t: seq<Object>)
    requires IndexOf(t, RootClass()) > 0
    ensures IsClass(t, IndexOf(t, RootClass()))
  {
    hide IndexOf;
  }

  /** Asking again changes nothing and gives the same handle. */
  ghost predicate Again(t: seq<Object>, r: Request, h: nat) {
    Sound(t) && Proper(t, r) && After(t, r) == t && Result(t, r) == h
  }

  /** A request for an object is settled if and only if the object is found. */
  lemma AgainIffFound(t: seq<Object>, r: Request, h: nat)
    requires Sound(t) && Proper(t, r) && Asks(r)
    ensures Again(t, r, h) <==>
      h == IndexOf(t, Needle(t, r)) > 0 && (r == AllocObject(0) ==> IndexOf(t, RootClass()) > 0)
  {
    hide IndexOf, Sound, Replaced;
    PreparedWanted(t, r);
    RootInterned(t);
    InternedSound(Prepared(t, r), Needle(Prepared(t, r), r));
  }

  /** A request is settled once it has been answered. */
  lemma AfterSettles(t: seq<Object>, r: Request)
    requires Sound(t) && Proper(t, r)
    ensures Again(After(t, r), r, Result(t, r))
  {
    hide IndexOf, Sound, Replaced, Interned;
    AfterSound(t, r);
    if Asks(r) {
      PreparedWanted(t, r);
      InternedSound(Prepared(t, r), Needle(Prepared(t, r), r));
      if r == AllocObject(0) {
        RootInterned(t);
        IndexStable(Prepared(t, r), After(t, r), RootClass());
      }
      AgainIffFound(After(t, r), r, Result(t, r));
    }
  }

  /** ... and stays settled while the table grows. */
  lemma AgainLater(t: seq<Object>, t': seq<Object>, r: Request, h: nat)
    requires Again(t, r, h) && h != 0 && Sound(t') && t <= t'
    ensures Again(t', r, h)
  {
    hide IndexOf, Sound, Replaced, Interned;
    if Asks(r) {
      AgainIffFound(t, r, h);
      if r == AllocObject(0) {
        IndexStable(t, t', RootClass());
      }
      IndexStable(t, t', Needle(t, r));
      AgainIffFound(t', r, h);
    }
  }

  lemma AnswersSettle(t: seq<Object>, r: Request, t': seq<Object>, h: nat)
    requires Answers(t, r, t', h)
    ensures Again(t', r, h) && t <= t'
  {
    hide IndexOf, Sound, Interned, After, Result;
    AfterSettles(t, r);
    AfterSound(t, r);
  }

  lemma AgainProper(t: seq<Object>, r: Request, h: nat)
    requires Again(t, r, h)
    ensures Proper(t, r)
  {
    hide Sound, After, Result;
  }

  lemma AgainAnswer(t: seq<Object>, r: Request, h: nat, t': seq<Object>, h': nat)
    requires Again(t, r, h) && Answers(t, r, t', h')
    ensures h' == h
  {
    hide Sound, After, Result;
  }

  // ---------------------------------------------------------------- what handles denote

  /** Equal texts have equal handles and different texts different ones. */
  lemma StringsInterned(t: seq<Object>, a: string, b: string, h: nat, k: nat)
    requires Again(t, NewString(a), h) && Again(t, NewString(b), k)
    ensures h == k <==> a == b
  {
    hide IndexOf, Sound, Interned;
    SettledFound(t, NewString(a), h);
    SettledFound(t, NewString(b), k);
    if h == k {
      IndexInjective(t, Object(0, Text(a)), Object(0, Text(b)));
    }
  }

  /** Two names denote the same class exactly when they are rewritten to the same name. */
  lemma ClassesInterned(t: seq<Object>, a: string, b: string, h: nat, k: nat)
    requires Again(t, FindClass(a), h) && Again(t, FindClass(b), k)
    ensures h == k <==> Replaced(a, {'/'}, '.') == Replaced(b, {'/'}, '.')
  {
    hide IndexOf, Sound, Interned, Replaced;
    SettledFound(t, FindClass(a), h);
    SettledFound(t, FindClass(b), k);
    if h == k {
      IndexInjective(t, ClassObject(a), ClassObject(b));
    }
  }

  /** Two method IDs are the same exactly when class, name and signature are. */
  lemma MethodsInterned(t: seq<Object>, k: nat, name: string, sig: string, h: nat,
                        k': nat, name': string, sig': string, h': nat)
    requires Again(t, GetMethodId(k, name, sig), h) && Again(t, GetMethodId(k', name', sig'), h') && h != 0
    ensures h == h' <==> k == k' && name == name' && sig == sig'
  {
    hide IndexOf, Sound, Interned;
    if k != 0 && k' != 0 {
      SettledFound(t, GetMethodId(k, name, sig), h);
      SettledFound(t, GetMethodId(k', name', sig'), h');
      if h == h' {
        IndexInjective(t, Object(0, Method(k, name, sig)), Object(0, Method(k', name', sig')));
      }
    }
  }

  /** Two plain objects are the same exactly when their classes are; NULL stands for java/lang/Object. */
  lemma ObjectsInterned(t: seq<Object>, k: nat, h: nat, k': nat, h': nat, root: nat)
    requires Again(t, AllocObject(k), h) && Again(t, AllocObject(k'), h')
    requires k == 0 || k' == 0 ==> Again(t, FindClass("java/lang/Object"), root)
    ensures h == h' <==> (if k == 0 then root else k) == (if k' == 0 then root else k')
  {
    hide IndexOf, Sound, Interned, Replaced;
    SettledFound(t, AllocObject(k), h);
    SettledFound(t, AllocObject(k'), h');
    if k == 0 || k' == 0 {
      SettledFound(t, FindClass("java/lang/Object"), root);
    }
    if h == h' {
      IndexInjective(t, Needle(t, AllocObject(k)), Needle(t, AllocObject(k')));
    }
  }

  /** Handles of different kinds are different. */
  lemma KindsApart(t: seq<Object>, r: Request, r': Request, h: nat)
    requires Again(t, r, h) && Again(t, r', h) && Asks(r) && Asks(r')
    ensures (r.NewString? <==> r'.NewString?) && (r.GetMethodId? <==> r'.GetMethodId?)
    ensures r.AllocObject? <==> r'.AllocObject?
  {
    hide IndexOf, Sound, Interned, Replaced;
    SettledFound(t, r, h);
    SettledFound(t, r', h);
    IndexInjective(t, Needle(t, r), Needle(t, r'));
  }

  /** GetObjectClass tells of a method, a string and a class what it is, and of an object the class that it
      was allocated with. */
  lemma ClassesTold(t: seq<Object>, r: Request, h: nat, c: nat)
    requires Again(t, r, h) && Asks(r) && !r.GetObjectClass? && Again(t, GetObjectClass(h), c)
    ensures r.GetMethodId? ==> Again(t, FindClass("java/lang/reflect/Method"), c)
    ensures r.NewString? ==> Again(t, FindClass("java/lang/String"), c)
    ensures r.FindClass? ==> Again(t, FindClass("java/lang/Class"), c)
    ensures r.AllocObject? && r.klass != 0 ==> c == r.klass
    ensures r == AllocObject(0) ==> Again(t, FindClass("java/lang/Object"), c)
  {
    hide IndexOf, Interned, Replaced, Unique;
    SettledFound(t, r, h);
    assert Same(Needle(t, r), t[h - 1]) && Classed(t, t[h - 1]);
    if r.GetMethodId? {
      ClassSettled(t, "java/lang/reflect/Method", c);
    } else if r.NewString? {
      ClassSettled(t, "java/lang/String", c);
    } else if r.FindClass? {
      ClassSettled(t, "java/lang/Class", c);
    } else if r == AllocObject(0) {
      AgainIffFound(t, r, h);
      AgainIffFound(t, FindClass("java/lang/Object"), c);
    }
  }

  lemma ClassSettled(t: seq<Object>, name: string, c: nat)
    requires Sound(t) && 0 < c <= |t| && t[c - 1] == ClassObject(name)
    ensures Again(t, FindClass(name), c)
  {
    hide IndexOf, Interned, Replaced;
    IndexIs(t, ClassObject(name), c);
    AgainIffFound(t, FindClass(name), c);
  }

  lemma SettledFound(t: seq<Object>, r: Request, h: nat)
    requires Again(t, r, h) && Asks(r)
    ensures h == IndexOf(t, Needle(t, r)) > 0
  {
    hide IndexOf, Sound, Replaced, Interned;
    AgainIffFound(t, r, h);
  }

  datatype Chars = NoChars | Chars(text: string)

  /** What GetStringUTFChars shows of a handle. */
  function CharsOf(t: seq<Object>, h: nat): Chars
    requires h <= |t|
  {
    if h > 0 && t[h - 1].body.Text? && t[h - 1].body.text != "" then Chars(t[h - 1].body.text) else NoChars
  }

  /** The characters of a new string come back, now and ever after, if and only if there are any. */
  lemma StringRoundTrip(t: seq<Object>, text: string, t': seq<Object>)
    requires Sound(t) && After(t, NewString(text)) <= t'
    ensures 0 < Result(t, NewString(text)) <= |t'|
    ensures CharsOf(t', Result(t, NewString(text))) == Chars(text) <==> text != ""
  {
    hide IndexOf, Sound;
    InternedSound(t, Object(0, Text(text)));
    hide Interned;
  }
}
