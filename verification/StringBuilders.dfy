/** The pool of buffers behind java.lang.StringBuilder. */
module StringBuilders {
  import opened JniRequests
  import opened ObjectTable
  import opened Words

  const POOL := 16

  /** The characters that a buffer can hold. */
  const ROOM := 4095

  /** A buffer: whose it is (0 if nobody's), the string in it, and where the next append begins. */
  datatype Slot = Slot(handle: nat, text: string, len: nat)

  /** What fits of a text. */
  function Cut(s: string): (r: string)
    ensures r <= s && |r| == if |s| <= 4095 then |s| else 4095
  {
    if |s| <= ROOM then s else s[..ROOM]
  }

  /** Cutting after every append is cutting once. */
  lemma CutTwice(a: string, b: string)
    ensures Cut(Cut(a) + b) == Cut(a + b)
  {
    if |a| > ROOM {
      assert (Cut(a) + b)[..ROOM] == a[..ROOM] == (a + b)[..ROOM];
    }
  }

  function Concat(parts: seq<string>): string {
    if parts == [] then "" else Concat(parts[..|parts| - 1]) + parts[|parts| - 1]
  }

  // ---------------------------------------------------------------- the text of a value

  function Digits(n: nat): (s: string)
    ensures |s| > 0 && forall c <- s :: '0' <= c <= '9'
  {
    var last := ['0' + (n % 10) as char];
    if n < 10 then last else Digits(n / 10) + last
  }

  /** "%ld". */
  function Decimal(i: int): string {
    if i < 0 then "-" + Digits(-i) else Digits(i)
  }

  /** The number that a string of digits stands for. */
  function Value(s: string): int {
    if s == [] then 0 else 10 * Value(s[..|s| - 1]) + (s[|s| - 1] as int - '0' as int)
  }

  /** A string of digits without leading zeros that stands for a number. */
  predicate Numeral(s: string, n: nat) {
    |s| > 0 && (forall c <- s :: '0' <= c <= '9') && (|s| > 1 ==> s[0] != '0') && Value(s) == n
  }

  /** The notation of a number: its numeral, after a minus sign exactly if it is negative. */
  predicate Notation(s: string, i: int) {
    if i < 0 then |s| > 0 && s[0] == '-' && Numeral(s[1..], -i) else Numeral(s, i)
  }

  lemma {:induction false} DigitsValue(n: nat)
    ensures Numeral(Digits(n), n) && (n > 0 ==> Digits(n)[0] != '0')
  {
    var last := ['0' + (n % 10) as char];
    if n >= 10 {
      DigitsValue(n / 10);
      assert (Digits(n / 10) + last)[..|Digits(n / 10)|] == Digits(n / 10);
    } else {
      assert Value(last[..0]) == 0;
    }
  }

  /** The printed number is the notation of that number. */
  lemma DecimalValue(i: int)
    ensures Notation(Decimal(i), i)
  {
    hide Numeral, Digits;
    if i < 0 {
      DigitsValue(-i);
      assert Decimal(i)[1..] == Digits(-i);
    } else {
      DigitsValue(i);
    }
  }

  /** What append makes of its argument: a number in the range of handles is taken for a string handle,
      and one without characters reads "(null)"; any other number is printed. */
  function Rendered(t: seq<Object>, raw: u64): string {
    if 0 < raw <= LIMIT then
      var chars := if raw <= |t| then CharsOf(t, raw) else NoChars;
      if chars.Chars? then chars.text else "(null)"
    else Decimal(Signed64(raw))
  }

  /** A string that the JVM holds is appended as it is, if it has any characters. */
  lemma RenderedString(t: seq<Object>, text: string, t': seq<Object>)
    requires Sound(t) && After(t, NewString(text)) <= t' && |t'| <= LIMIT && text != ""
    ensures Result(t, NewString(text)) <= |t'| && Rendered(t', Result(t, NewString(text))) == text
  {
    hide Sound, After, Result;
    StringRoundTrip(t, text, t');
  }

  /** A number that cannot be taken for a handle is appended in its notation. */
  lemma RenderedNumber(t: seq<Object>, i: int)
    requires -TWO63 <= i < TWO63 && !(1 <= i <= 65536)
    ensures Notation(Rendered(t, i % TWO64), i)
  {
    hide Decimal, Notation;
    assert Signed64(i % TWO64) == i;
    DecimalValue(i);
  }

  /** A number in the range of handles that denotes no string with characters reads "(null)". */
  lemma RenderedNull(t: seq<Object>, raw: u64)
    requires 1 <= raw <= 65536
    requires raw <= |t| ==> !t[raw - 1].body.Text? || t[raw - 1].body.text == ""
    ensures Rendered(t, raw) == "(null)"
  {
  }

  // ---------------------------------------------------------------- the pool and the map

  ghost predicate SlotOk(s: Slot, m: map<nat, string>) {
    && s.len <= |s.text| <= ROOM
    && (s.handle != 0 ==> s.len == |s.text| && s.handle in m && m[s.handle] == s.text)
  }

  ghost predicate Owned(pool: seq<Slot>, h: nat) {
    exists i :: 0 <= i < |pool| && pool[i].handle == h
  }

  /** The used slots list the map, each builder once. */
  ghost predicate Lists(pool: seq<Slot>, m: map<nat, string>) {
    && (forall i :: 0 <= i < |pool| ==> SlotOk(pool[i], m))
    && (forall i, j :: 0 <= i < j < |pool| && pool[i].handle == pool[j].handle ==> pool[i].handle == 0)
    && (forall h <- m :: h != 0 && Owned(pool, h))
  }

  lemma OwnedBy(pool: seq<Slot>, i: nat, h: nat)
    requires i < |pool| && pool[i].handle == h
    ensures Owned(pool, h)
  {
  }

  lemma ListsRest(pool: seq<Slot>, m: map<nat, string>)
    requires Lists(pool, m) && pool != []
    ensures Lists(pool[..|pool| - 1], m - {pool[|pool| - 1].handle})
  {
    var rest, k := pool[..|pool| - 1], pool[|pool| - 1].handle;
    forall h | h in m - {k} ensures h != 0 && Owned(rest, h) {
      assert Owned(pool, h);
      var i :| 0 <= i < |pool| && pool[i].handle == h;
      OwnedBy(rest, i, h);
    }
    forall i | 0 <= i < |rest| ensures SlotOk(rest[i], m - {k}) {
      assert SlotOk(pool[i], m);
    }
  }

  lemma OwnedRest(pool: seq<Slot>, h: nat)
    requires pool != []
    ensures Owned(pool, h) <==> Owned(pool[..|pool| - 1], h) || pool[|pool| - 1].handle == h
  {
    var rest := pool[..|pool| - 1];
    if i :| 0 <= i < |pool| && pool[i].handle == h {
      if i < |rest| {
        OwnedBy(rest, i, h);
      }
    }
    if i :| 0 <= i < |rest| && rest[i].handle == h {
      OwnedBy(pool, i, h);
    }
  }

  lemma NoBuilders(m: map<nat, string>)
    requires Lists([], m)
    ensures m.Keys == {} && !Owned([], 0)
  {
    assert forall h <- m :: Owned([], h);
  }

  /** The pool is full if and only if there are as many builders as slots. */
  lemma {:induction false} ListsSize(pool: seq<Slot>, m: map<nat, string>)
    requires Lists(pool, m)
    ensures |m| <= |pool| && (|m| == |pool| <==> !Owned(pool, 0))
  {
    hide Lists, Owned;
    if pool == [] {
      NoBuilders(m);
    } else {
      var rest, k := pool[..|pool| - 1], pool[|pool| - 1].handle;
      ListsRest(pool, m);
      ListsSize(rest, m - {k});
      OwnedRest(pool, 0);
      if k != 0 {
        ListsAt(pool, m, k);
        assert m.Keys == (m - {k}).Keys + {k};
      } else {
        NoNull(pool, m);
        assert m - {k} == m;
      }
    }
  }

  lemma ListsUpdate(pool: seq<Slot>, m: map<nat, string>, i: nat, v: Slot)
    requires Lists(pool, m) && i < |pool| && pool[i].handle == v.handle != 0 && v.len == |v.text| <= ROOM
    ensures Lists(pool[i := v], m[v.handle := v.text])
  {
    var pool', m' := pool[i := v], m[v.handle := v.text];
    assert SlotOk(pool[i], m);
    forall j | 0 <= j < |pool| ensures SlotOk(pool'[j], m') {
      assert SlotOk(pool[j], m);
    }
    forall h | h in m' ensures h != 0 && Owned(pool', h) {
      assert Owned(pool, h);
      var j :| 0 <= j < |pool| && pool[j].handle == h;
      OwnedBy(pool', j, h);
    }
  }

  lemma ListsAlloc(pool: seq<Slot>, m: map<nat, string>, i: nat, h: nat)
    requires Lists(pool, m) && i < |pool| && pool[i].handle == 0 && h != 0 && h !in m
    ensures Lists(pool[i := Slot(h, "", 0)], m[h := ""])
  {
    var pool', m' := pool[i := Slot(h, "", 0)], m[h := ""];
    forall j | 0 <= j < |pool| ensures SlotOk(pool'[j], m') && (j != i ==> pool'[j].handle != h) {
      assert SlotOk(pool[j], m);
    }
    forall h' | h' in m' ensures h' != 0 && Owned(pool', h') {
      if h' == h {
        OwnedBy(pool', i, h);
      } else {
        assert Owned(pool, h');
        var j :| 0 <= j < |pool| && pool[j].handle == h';
        OwnedBy(pool', j, h');
      }
    }
  }

  /** A slot that nobody owns may hold anything. */
  lemma ListsSpare(pool: seq<Slot>, m: map<nat, string>, i: nat, v: Slot)
    requires Lists(pool, m) && i < |pool| && pool[i].handle == v.handle == 0 && v.len <= |v.text| <= ROOM
    ensures Lists(pool[i := v], m)
  {
    var pool' := pool[i := v];
    forall j | 0 <= j < |pool| ensures SlotOk(pool'[j], m) {
      assert SlotOk(pool[j], m);
    }
    forall h | h in m ensures h != 0 && Owned(pool', h) {
      assert Owned(pool, h);
      var j :| 0 <= j < |pool| && pool[j].handle == h;
      OwnedBy(pool', j, h);
    }
  }

  lemma ListsFree(pool: seq<Slot>, m: map<nat, string>, i: nat)
    requires Lists(pool, m) && i < |pool|
    ensures Lists(pool[i := pool[i].(handle := 0, len := 0)], m - {pool[i].handle})
  {
    var k := pool[i].handle;
    var pool', m' := pool[i := pool[i].(handle := 0, len := 0)], m - {k};
    assert SlotOk(pool[i], m);
    forall j | 0 <= j < |pool| ensures SlotOk(pool'[j], m') {
      assert SlotOk(pool[j], m);
    }
    forall h | h in m' ensures h != 0 && Owned(pool', h) {
      assert Owned(pool, h);
      var j :| 0 <= j < |pool| && pool[j].handle == h;
      OwnedBy(pool', j, h);
    }
  }

  lemma ListsAt(pool: seq<Slot>, m: map<nat, string>, h: nat)
    requires Lists(pool, m) && h != 0
    ensures h in m <==> Owned(pool, h)
    ensures forall i :: 0 <= i < |pool| && pool[i].handle == h ==>
      h in m && m[h] == pool[i].text && pool[i].len == |pool[i].text|
  {
    forall i | 0 <= i < |pool| && pool[i].handle == h
      ensures h in m && m[h] == pool[i].text && pool[i].len == |pool[i].text|
    {
      assert SlotOk(pool[i], m);
    }
  }

  // ---------------------------------------------------------------- a run of calls

  /** A constructor call, an append and a toString; `objects` are those of the JVM at the time. */
  datatype Call = Make(obj: nat) | Put(obj: nat, raw: u64, objects: seq<Object>) | Show(obj: nat)

  /** All that was appended to each builder that is alive. */
  type Parts = map<nat, seq<string>>

  predicate Takes(h: Parts, obj: nat) {
    obj != 0 && (obj in h || |h| < 16)
  }

  function PartsOf(h: Parts, obj: nat): seq<string> {
    if obj in h then h[obj] else []
  }

  function Then(h: Parts, c: Call): Parts {
    match c
    case Make(obj) => if Takes(h, obj) then h[obj := PartsOf(h, obj)] else h
    case Put(obj, raw, objects) =>
      if Takes(h, obj) then h[obj := PartsOf(h, obj) + [Rendered(objects, raw)]] else h
    case Show(obj) => h - {obj}
  }

  function History(calls: seq<Call>): Parts {
    if calls == [] then map[] else Then(History(calls[..|calls| - 1]), calls[|calls| - 1])
  }

  lemma HistoryMore(calls: seq<Call>, k: nat)
    requires k < |calls|
    ensures History(calls[..k + 1]) == Then(History(calls[..k]), calls[k])
  {
    assert calls[..k + 1][..k] == calls[..k];
  }

  /** What the buffers hold: the first 4095 characters of everything. */
  function Shown(h: Parts): (m: map<nat, string>)
    ensures m.Keys == h.Keys
  {
    map obj | obj in h :: Cut(Concat(h[obj]))
  }

  lemma ShownTakes(h: Parts, obj: nat)
    ensures obj != 0 && Room(Shown(h), obj) <==> Takes(h, obj)
    ensures TextOf(Shown(h), obj) == Cut(Concat(PartsOf(h, obj)))
  {
    assert |Shown(h)| == |Shown(h).Keys| == |h.Keys| == |h|;
  }

  lemma ShownMade(h: Parts, obj: nat)
    ensures Shown(h)[obj := TextOf(Shown(h), obj)] == Shown(h[obj := PartsOf(h, obj)])
  {
    ShownTakes(h, obj);
  }

  /** Cutting after every append is cutting once. */
  lemma ShownMore(h: Parts, obj: nat, s: string)
    ensures Shown(h)[obj := Cut(TextOf(Shown(h), obj) + s)] == Shown(h[obj := PartsOf(h, obj) + [s]])
  {
    ShownTakes(h, obj);
    var parts := PartsOf(h, obj);
    CutTwice(Concat(parts), s);
    assert (parts + [s])[..|parts|] == parts;
  }

  lemma ShownLess(h: Parts, obj: nat)
    ensures Shown(h) - {obj} == Shown(h - {obj})
  {
  }

  /** What a builder was given since it was last shown, whatever happened to others. */
  function Own(calls: seq<Call>, obj: nat): seq<string> {
    if calls == [] then [] else
    var before, c := Own(calls[..|calls| - 1], obj), calls[|calls| - 1];
    if c.obj != obj || c.Make? then before
    else if c.Show? then []
    else before + [Rendered(c.objects, c.raw)]
  }

  /** There was always a buffer for the builder. */
  ghost predicate Heard(calls: seq<Call>, obj: nat) {
    forall k :: 0 <= k < |calls| && calls[k].obj == obj && !calls[k].Show? ==> Takes(History(calls[..k]), obj)
  }

  /** The calls on other builders do not matter. */
  lemma {:induction false} HistoryIsOwn(calls: seq<Call>, obj: nat)
    requires Heard(calls, obj)
    ensures PartsOf(History(calls), obj) == Own(calls, obj)
  {
    if calls != [] {
      var n := |calls| - 1;
      var init := calls[..n];
      assert forall k :: 0 <= k < n ==> init[..k] == calls[..k];
      assert Heard(init, obj);
      HistoryIsOwn(init, obj);
    }
  }

  lemma {:induction false} HistoryKeys(calls: seq<Call>, builders: set<nat>)
    requires forall c <- calls :: c.obj in builders
    ensures History(calls).Keys <= builders
  {
    if calls != [] {
      HistoryKeys(calls[..|calls| - 1], builders);
      assert calls[|calls| - 1] in calls;
    }
  }

  /** There is, if there are never more than 16 builders. */
  lemma FewBuilders(calls: seq<Call>, builders: set<nat>, obj: nat)
    requires |builders| <= 16 && obj != 0 && forall c <- calls :: c.obj in builders
    ensures Heard(calls, obj)
  {
    forall k | 0 <= k < |calls| && calls[k].obj == obj && !calls[k].Show?
      ensures Takes(History(calls[..k]), obj)
    {
      var h := History(calls[..k]);
      assert calls[k] in calls;
      HistoryKeys(calls[..k], builders);
      if obj !in h {
        Fewer(h.Keys, builders, obj);
      }
    }
  }

  lemma Fewer(a: set<nat>, b: set<nat>, x: nat)
    requires a <= b && x in b && x !in a
    ensures |a| < |b|
  {
    assert a <= b - {x};
    Subset(a, b - {x});
  }

  lemma {:induction false} Subset(a: set<nat>, b: set<nat>)
    requires a <= b
    ensures |a| <= |b|
    decreases |a|
  {
    if x :| x in a {
      Subset(a - {x}, b - {x});
    }
  }

  // ---------------------------------------------------------------- the calls

  class StringBuilders {
    var pool: seq<Slot>
    ghost var texts: map<nat, string>

    ghost predicate Valid()
      reads this
    {
      |pool| == POOL && Lists(pool, texts)
    }

    constructor ()
      ensures Valid() && texts == map[]
    {
      pool := seq(POOL, _ => Slot(0, "", 0));
      texts := map[];
    }

    /** sb_find. */
    method Find(obj: nat) returns (i: int)
      requires |pool| == POOL
      ensures -1 <= i < POOL && (i == -1 <==> !Owned(pool, obj)) && (i >= 0 ==> pool[i].handle == obj)
    {
      i := 0;
      while i < POOL
        invariant 0 <= i <= POOL && forall j :: 0 <= j < i ==> pool[j].handle != obj
      {
        if pool[i].handle == obj {
          OwnedBy(pool, i, obj);
          return;
        }
        i := i + 1;
      }
      i := -1;
    }

    /** sb_get_or_alloc. The NULL builder is found in any slot that nobody owns. */
    method GetOrAlloc(obj: nat) returns (i: int)
      requires Valid()
      modifies this
      ensures Valid() && -1 <= i < POOL && (i >= 0 ==> pool[i].handle == obj)
      ensures obj == 0 ==> texts == old(texts)
      ensures obj != 0 ==> (i >= 0 <==> Room(old(texts), obj))
      ensures obj != 0 ==>
        texts == if Room(old(texts), obj) then old(texts)[obj := TextOf(old(texts), obj)] else old(texts)
    {
      hide Lists, Owned;
      i := Find(obj);
      ListsSize(pool, texts);
      if obj != 0 {
        ListsAt(pool, texts, obj);
      }
      if i >= 0 {
        if obj != 0 {
          assert texts == texts[obj := texts[obj]];
        }
        return;
      }
      i := Find(0);
      if i >= 0 {
        ListsAlloc(pool, texts, i, obj);
        pool, texts := pool[i := Slot(obj, "", 0)], texts[obj := ""];
      }
    }

    /** The constructor. */
    method Init(obj: nat)
      requires Valid()
      modifies this
      ensures Valid()
      ensures texts == if obj != 0 && Room(old(texts), obj) then old(texts)[obj := TextOf(old(texts), obj)]
                       else old(texts)
    {
      var _ := GetOrAlloc(obj);
    }

    /** append: as much of the text of the argument as fits is added to the builder, which is created if
        need be; with all buffers taken it does nothing. `t` are the objects of the JVM. */
    method Append(obj: nat, raw: u64, t: seq<Object>)
      requires Valid()
      modifies this
      ensures Valid()
      ensures texts == if obj != 0 && Room(old(texts), obj)
                       then old(texts)[obj := Cut(TextOf(old(texts), obj) + Rendered(t, raw))] else old(texts)
    {
      hide Lists, Owned, Cut, Rendered;
      var i := GetOrAlloc(obj);
      if i >= 0 {
        AppendCstr(i, Rendered(t, raw));
      }
    }

    /** Any run of calls on any builders, interleaved in any way: each toString gives the first 4095
        characters of all that was appended to its builder since it was last shown. */
    method Serve(calls: seq<Call>) returns (results: seq<string>)
      requires Valid() && texts == map[]
      modifies this
      ensures Valid() && texts == Shown(History(calls)) && |results| == |calls|
      ensures forall k :: 0 <= k < |calls| && calls[k].Show? && calls[k].obj != 0 ==>
        results[k] == Cut(Concat(PartsOf(History(calls[..k]), calls[k].obj)))
    {
      hide Lists, Shown, History, Cut, Concat;
      results := [];
      NoHistory(calls);
      for k := 0 to |calls|
        invariant Valid() && texts == Shown(History(calls[..k])) && |results| == k
        invariant forall j :: 0 <= j < k && calls[j].Show? && calls[j].obj != 0 ==>
          results[j] == Cut(Concat(PartsOf(History(calls[..j]), calls[j].obj)))
      {
        HistoryMore(calls, k);
        var r := ServeOne(calls[k], History(calls[..k]));
        results := results + [r];
      }
      assert calls[..|calls|] == calls;
    }

    method ServeOne(c: Call, ghost h: Parts) returns (r: string)
      requires Valid() && texts == Shown(h)
      modifies this
      ensures Valid() && texts == Shown(Then(h, c))
      ensures c.Show? && c.obj != 0 ==> r == Cut(Concat(PartsOf(h, c.obj)))
    {
      hide Lists, Shown, Cut, Concat, Rendered, Room, TextOf, PartsOf, Takes;
      ShownTakes(h, c.obj);
      r := "";
      match c {
        case Make(obj) =>
          ShownMade(h, obj);
          Init(obj);
        case Put(obj, raw, objects) =>
          ShownMore(h, obj, Rendered(objects, raw));
          Append(obj, raw, objects);
        case Show(obj) =>
          ShownLess(h, obj);
          r := ToString(obj);
      }
    }

    /** sb_append_cstr. */
    method AppendCstr(i: nat, s: string)
      requires Valid() && i < POOL
      modifies this
      ensures Valid()
      ensures var obj := old(pool[i].handle);
        texts == if obj == 0 then old(texts) else old(texts)[obj := Cut(TextOf(old(texts), obj) + s)]
    {
      SlotFits(pool, texts, i);
      hide Lists, Owned;
      var slot := pool[i];
      var add := |s|;
      var rem := ROOM - slot.len;
      if add > rem {
        add := rem;
      }
      var v := Slot(slot.handle, slot.text[..slot.len] + s[..add], slot.len + add);
      if slot.handle == 0 {
        ListsSpare(pool, texts, i, v);
      } else {
        ListsAt(pool, texts, slot.handle);
        ListsUpdate(pool, texts, i, v);
        assert v.text == Cut(slot.text + s);
        texts := texts[slot.handle := v.text];
      }
      pool := pool[i := v];
    }

    /** toString: the text of the builder, whose buffer is given back. */
    method ToString(obj: nat) returns (r: string)
      requires Valid()
      modifies this
      ensures Valid() && texts == old(texts) - {obj}
      ensures obj != 0 ==> r == TextOf(old(texts), obj)
    {
      hide Lists, Owned;
      NoNull(pool, texts);
      var i := Find(obj);
      if obj != 0 {
        ListsAt(pool, texts, obj);
      }
      if i >= 0 {
        r := pool[i].text;
        ListsFree(pool, texts, i);
        pool, texts := pool[i := pool[i].(handle := 0, len := 0)], texts - {obj};
      } else {
        r := "";
        assert texts - {obj} == texts;
      }
    }
  }

  lemma NoHistory(calls: seq<Call>)
    ensures Shown(History(calls[..0])) == map[]
  {
  }

  /** A builder has a buffer, or there is one to spare. */
  predicate Room(texts: map<nat, string>, obj: nat) {
    obj in texts || |texts| < POOL
  }

  function TextOf(texts: map<nat, string>, obj: nat): string {
    if obj in texts then texts[obj] else ""
  }

  lemma SlotFits(pool: seq<Slot>, m: map<nat, string>, i: nat)
    requires Lists(pool, m) && i < |pool|
    ensures pool[i].len <= |pool[i].text| <= ROOM && (pool[i].handle != 0 ==> pool[i].len == |pool[i].text|)
  {
    assert SlotOk(pool[i], m);
  }

  lemma NoNull(pool: seq<Slot>, m: map<nat, string>)
    requires Lists(pool, m)
    ensures 0 !in m
  {
  }
}
