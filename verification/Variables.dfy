/** The variable store of a request (src/httpd.cpp): a chain of variables, each heading
    a chain of values. */
module Variables {
  import opened Bytes

  type Value = Option<seq<Byte>>

  // ----- The multimap the two-dimensional chain stands for -----

  /** A name with its values, first added first. */
  datatype Binding = Binding(name: seq<Byte>, values: seq<Value>)

  /** One call of `httpdAddVariable`. */
  datatype Pair = Pair(name: seq<Byte>, value: Value)

  /** The name without its leading blanks and tabs. */
  function Strip(name: seq<Byte>): seq<Byte> {
    if name != [] && (name[0] == SPACE || name[0] == TAB) then Strip(name[1..]) else name
  }

  /** The binding of a name, or the end. */
  function Find(store: seq<Binding>, name: seq<Byte>): (k: nat)
    ensures k <= |store| && (k < |store| ==> store[k].name == name)
    ensures forall i | 0 <= i < k :: store[i].name != name
  {
    if store == [] || store[0].name == name then 0 else 1 + Find(store[1..], name)
  }

  function Lookup(store: seq<Binding>, name: seq<Byte>): seq<Value> {
    var k := Find(store, name);
    if k < |store| then store[k].values else []
  }

  function Add(store: seq<Binding>, name: seq<Byte>, value: Value): seq<Binding> {
    var k := Find(store, name);
    if k < |store| then store[k := Binding(name, store[k].values + [value])] else store + [Binding(name, [value])]
  }

  function AddAll(store: seq<Binding>, pairs: seq<Pair>): seq<Binding>
    decreases |pairs|
  {
    if pairs == [] then store else AddAll(Add(store, Strip(pairs[0].name), pairs[0].value), pairs[1..])
  }

  /** The values added under a name, in order. */
  function Selected(pairs: seq<Pair>, name: seq<Byte>): seq<Value> {
    if pairs == [] then []
    else (if Strip(pairs[0].name) == name then [pairs[0].value] else []) + Selected(pairs[1..], name)
  }

  /** No name is bound twice: each binding is the first of its name. */
  ghost predicate Distinct(store: seq<Binding>) {
    forall i | 0 <= i < |store| :: Find(store, store[i].name) == i
  }

  lemma {:induction false} FindIs(store: seq<Binding>, name: seq<Byte>, k: nat)
    requires k < |store| && store[k].name == name
    requires forall i | 0 <= i < k :: store[i].name != name
    ensures Find(store, name) == k
  {
  }

  lemma {:induction false} AddKeeps(store: seq<Binding>, name: seq<Byte>, value: Value, other: seq<Byte>)
    requires Distinct(store)
    ensures Distinct(Add(store, name, value))
    ensures Lookup(Add(store, name, value), other) == Lookup(store, other) + if name == other then [value] else []
    ensures Find(store, other) < |store| ==> Find(Add(store, name, value), other) == Find(store, other)
  {
    AddDistinct(store, name, value);
    AddLookup(store, name, value, other);
    if Find(store, other) < |store| { FindAfter(store, name, value, Find(store, other)); }
  }

  lemma {:induction false} AddDistinct(store: seq<Binding>, name: seq<Byte>, value: Value)
    requires Distinct(store)
    ensures Distinct(Add(store, name, value))
  {
    forall i | 0 <= i < |Add(store, name, value)|
      ensures Find(Add(store, name, value), Add(store, name, value)[i].name) == i
    {
      FindAfter(store, name, value, i);
    }
  }

  lemma {:induction false} AddLookup(store: seq<Binding>, name: seq<Byte>, value: Value, other: seq<Byte>)
    requires Distinct(store)
    ensures Lookup(Add(store, name, value), other) == Lookup(store, other) + if name == other then [value] else []
  {
    var after, j := Add(store, name, value), Find(store, other);
    if j < |store| {
      FindAfter(store, name, value, j);
    } else if name == other {
      FindIs(after, name, j);
    } else {
      assert Find(after, other) == |after|;
    }
  }

  lemma {:induction false} FindAfter(store: seq<Binding>, name: seq<Byte>, value: Value, i: nat)
    requires Distinct(store) && i < |Add(store, name, value)|
    ensures var after := Add(store, name, value); Find(after, after[i].name) == i
  {
    var after := Add(store, name, value);
    var k := Find(store, name);
    if i < |store| {
      assert Find(store, store[i].name) == i;
    }
    assert forall j | 0 <= j < |store| :: after[j].name == store[j].name;
    FindIs(after, after[i].name, i);
  }

  /** After any sequence of adds: distinct names, and under each name exactly the values
      added under it, in order of insertion. */
  lemma {:induction false} StoreIsMultimap(store: seq<Binding>, pairs: seq<Pair>, name: seq<Byte>)
    requires Distinct(store)
    ensures Distinct(AddAll(store, pairs))
    ensures Lookup(AddAll(store, pairs), name) == Lookup(store, name) + Selected(pairs, name)
    decreases |pairs|
  {
    if pairs != [] {
      AddKeeps(store, Strip(pairs[0].name), pairs[0].value, name);
      StoreIsMultimap(Add(store, Strip(pairs[0].name), pairs[0].value), pairs[1..], name);
    }
  }

  /** The names in order of their first insertion. */
  function Names(pairs: seq<Pair>, known: seq<seq<Byte>>): seq<seq<Byte>>
    decreases |pairs|
  {
    if pairs == [] then known
    else
      var name := Strip(pairs[0].name);
      Names(pairs[1..], if name in known then known else known + [name])
  }

  function NamesOf(store: seq<Binding>): (names: seq<seq<Byte>>)
    ensures |names| == |store| && forall i | 0 <= i < |store| :: names[i] == store[i].name
  {
    seq(|store|, i requires 0 <= i < |store| => store[i].name)
  }

  lemma {:induction false} NamesInOrder(store: seq<Binding>, pairs: seq<Pair>)
    requires Distinct(store)
    ensures NamesOf(AddAll(store, pairs)) == Names(pairs, NamesOf(store))
    decreases |pairs|
  {
    if pairs != [] {
      var name := Strip(pairs[0].name);
      var after := Add(store, name, pairs[0].value);
      AddKeeps(store, name, pairs[0].value, name);
      var k := Find(store, name);
      if k < |store| {
        assert NamesOf(store)[k] == name;
        assert NamesOf(after) == NamesOf(store);
      } else {
        assert NamesOf(after) == NamesOf(store) + [name];
      }
      NamesInOrder(after, pairs[1..]);
    }
  }

  // ----- The nodes -----

  class HttpVar {
    var name: seq<Byte>
    var value: Value
    var nextValue: HttpVar?
    var nextVariable: HttpVar?

    constructor (name: seq<Byte>, value: Value)
      ensures this.name == name && this.value == value && nextValue == null && nextVariable == null
    {
      this.name, this.value := name, value;
      nextValue, nextVariable := null, null;
    }
  }

  // ----- Where the nodes stand -----

  /** A node's variable in the top chain, and its own place in the chain of values. */
  datatype Place = Place(col: nat, row: nat)

  /** The nodes by place, and the places by node. */
  datatype Layout = Layout(nodes: map<Place, HttpVar>, places: map<HttpVar, Place>) {
    function At(k: nat, i: nat): HttpVar? {
      var p := Place(k, i);
      if p in nodes then nodes[p] else null
    }

    function NextValue(v: HttpVar): HttpVar?
      requires v in places
    {
      At(places[v].col, places[v].row + 1)
    }

    function NextVariable(v: HttpVar): HttpVar?
      requires v in places
    {
      if places[v].row == 0 then At(places[v].col + 1, 0) else null
    }

    function Put(k: nat, i: nat, v: HttpVar): Layout {
      Layout(nodes[Place(k, i) := v], places[v := Place(k, i)])
    }

    /** Every node stands at exactly one place. */
    ghost predicate OneToOne() {
      (forall p | p in nodes :: nodes[p] in places && places[nodes[p]] == p) &&
      (forall v | v in places :: places[v] in nodes && nodes[places[v]] == v)
    }

    /** There is a node for every value stored, and no other. */
    ghost predicate Fits(store: seq<Binding>) {
      (forall k | 0 <= k < |store| :: store[k].values != []) && forall p :: p in nodes <==> HasPlace(store, p)
    }
  }

  predicate HasPlace(store: seq<Binding>, p: Place) {
    p.col < |store| && p.row < |store[p.col].values|
  }

  /** What the store has at a place. */
  function PairAt(store: seq<Binding>, p: Place): Pair {
    if HasPlace(store, p) then Pair(store[p.col].name, store[p.col].values[p.row]) else Pair([], None)
  }

  /** An added value takes a new place and leaves the others alone. */
  lemma {:induction false} AddAt(store: seq<Binding>, name: seq<Byte>, value: Value, p: Place)
    ensures var k := Find(store, name);
      var q := Place(k, if k < |store| then |store[k].values| else 0);
      PairAt(Add(store, name, value), p) == if p == q then Pair(name, value) else PairAt(store, p)
  {
  }

  lemma {:induction false} PutOneToOne(layout: Layout, k: nat, i: nat, v: HttpVar)
    requires layout.OneToOne() && v !in layout.places && layout.At(k, i) == null
    ensures layout.Put(k, i, v).OneToOne()
  {
  }

  lemma {:induction false} PutBehind(layout: Layout, store: seq<Binding>, k: nat, v: HttpVar, value: Value)
    requires layout.Fits(store) && k < |store|
    ensures layout.Put(k, |store[k].values|, v).Fits(store[k := Binding(store[k].name, store[k].values + [value])])
  {
  }

  lemma {:induction false} PutLast(layout: Layout, store: seq<Binding>, v: HttpVar, name: seq<Byte>, value: Value)
    requires layout.Fits(store)
    ensures layout.Put(|store|, 0, v).Fits(store + [Binding(name, [value])])
  {
  }

  /** Putting a node behind the values of a variable changes what follows its last value only. */
  lemma {:induction false} BehindNext(layout: Layout, k: nat, i: nat, v: HttpVar, w: HttpVar)
    requires layout.OneToOne() && v !in layout.places && w in layout.places && i > 0
    requires layout.At(k, i + 1) == null
    ensures var after := layout.Put(k, i, v);
      after.NextValue(v) == null && after.NextVariable(v) == null && after.At(0, 0) == layout.At(0, 0) &&
      after.NextValue(w) == (if layout.places[w] == Place(k, i - 1) then v else layout.NextValue(w)) &&
      after.NextVariable(w) == layout.NextVariable(w)
  {
  }

  /** Putting a node behind the last variable changes what follows that one only. */
  lemma {:induction false} LastNext(layout: Layout, k: nat, v: HttpVar, w: HttpVar)
    requires layout.OneToOne() && v !in layout.places && w in layout.places
    requires layout.At(k, 1) == null && layout.At(k + 1, 0) == null
    ensures var after := layout.Put(k, 0, v);
      after.NextValue(v) == null && after.NextVariable(v) == null &&
      after.NextValue(w) == layout.NextValue(w) &&
      after.NextVariable(w) ==
        if layout.places[w].row == 0 && layout.places[w].col + 1 == k then v else layout.NextVariable(w)
  {
  }

  /** The values of variable `k` up to row `n`. */
  function Column(layout: Layout, k: nat, n: nat): seq<HttpVar?> {
    seq(n, i requires 0 <= i < n => layout.At(k, i))
  }

  /** The order in which `_httpd_freeVariables` releases, the last variable first. */
  function Released(layout: Layout, store: seq<Binding>, k: nat): seq<HttpVar?>
    requires k <= |store|
    decreases |store| - k
  {
    if k == |store| then [] else Released(layout, store, k + 1) + Column(layout, k, |store[k].values|)
  }

  lemma {:induction false} ReleasedCount(layout: Layout, store: seq<Binding>, v: HttpVar, k: nat)
    requires layout.OneToOne() && layout.Fits(store) && v in layout.places && k <= |store|
    ensures multiset(Released(layout, store, k))[v] == if layout.places[v].col >= k then 1 else 0
    decreases |store| - k
  {
    if k < |store| {
      ReleasedCount(layout, store, v, k + 1);
      ColumnCount(layout, store, v, k);
    }
  }

  lemma {:induction false} ColumnCount(layout: Layout, store: seq<Binding>, v: HttpVar, k: nat)
    requires layout.OneToOne() && layout.Fits(store) && v in layout.places && k < |store|
    ensures multiset(Column(layout, k, |store[k].values|))[v] == if layout.places[v].col == k then 1 else 0
  {
    var c, i := Column(layout, k, |store[k].values|), layout.places[v].row;
    if layout.places[v].col == k {
      assert c == c[..i] + [v] + c[i + 1..];
      assert v !in c[..i] && v !in c[i + 1..];
    }
  }

  lemma {:induction false} ReleasedOnly(layout: Layout, store: seq<Binding>, k: nat)
    requires layout.OneToOne() && layout.Fits(store) && k <= |store|
    ensures forall v | v in Released(layout, store, k) :: v in layout.places
    decreases |store| - k
  {
    if k < |store| {
      ReleasedOnly(layout, store, k + 1);
      forall i: nat | i < |store[k].values|
        ensures layout.At(k, i) in layout.places
      {
        assert HasPlace(store, Place(k, i));
      }
    }
  }

  /** Every node of the store is released exactly once, and nothing else is. */
  lemma {:induction false} ReleasedOnce(layout: Layout, store: seq<Binding>)
    requires layout.OneToOne() && layout.Fits(store)
    ensures forall v | v in layout.places :: multiset(Released(layout, store, 0))[v] == 1
    ensures forall v | v in Released(layout, store, 0) :: v in layout.places
  {
    ReleasedOnly(layout, store, 0);
    forall v | v in layout.places
      ensures multiset(Released(layout, store, 0))[v] == 1
    {
      ReleasedCount(layout, store, v, 0);
    }
  }

  /** How many values the variables from `k` on have. */
  function Total(store: seq<Binding>, k: nat): nat
    requires k <= |store|
    decreases |store| - k
  {
    if k == |store| then 0 else Total(store, k + 1) + |store[k].values|
  }

  lemma {:induction false} ReleasedLength(layout: Layout, store: seq<Binding>, k: nat)
    requires k <= |store|
    ensures |Released(layout, store, k)| == Total(store, k)
    decreases |store| - k
  {
    if k < |store| { ReleasedLength(layout, store, k + 1); }
  }

  /** The node of value `row` of variable `col` is released behind all values of the
      later variables and the earlier values of its own. */
  lemma {:induction false} ReleasedAt(layout: Layout, store: seq<Binding>, k: nat, col: nat, row: nat)
    requires k <= col < |store| && row < |store[col].values|
    ensures Total(store, col + 1) + row < |Released(layout, store, k)|
    ensures Released(layout, store, k)[Total(store, col + 1) + row] == layout.At(col, row)
    decreases col - k
  {
    ReleasedLength(layout, store, k + 1);
    if k < col { ReleasedAt(layout, store, k + 1, col, row); }
  }

  // ----- The request's store -----

  /** The loop that skips leading blanks and tabs. */
  method SkipBlanks(name: seq<Byte>) returns (stripped: seq<Byte>)
    ensures stripped == Strip(name)
  {
    var start := 0;
    while start < |name| && (name[start] == SPACE || name[start] == TAB)
      invariant start <= |name| && Strip(name) == Strip(name[start..])
    {
      assert name[start..][1..] == name[start + 1..];
      start := start + 1;
    }
    stripped := name[start..];
  }

  class Request {
    var variables: HttpVar?
    ghost var layout: Layout
    ghost var store: seq<Binding>

    constructor ()
      ensures Valid() && store == [] && fresh(Nodes())
    {
      variables := null;
      layout, store := Layout(map[], map[]), [];
    }

    ghost function Nodes(): set<HttpVar>
      reads this
    {
      layout.places.Keys
    }

    ghost predicate Shaped()
      reads this
    {
      layout.OneToOne() && layout.Fits(store)
    }

    /** A node carries what the store has at its place, and links to the next value. */
    ghost predicate Chained()
      requires Shaped()
      reads this, Nodes()
    {
      forall v {:trigger v.name} {:trigger v.value} {:trigger v.nextValue} | v in Nodes() ::
        Pair(v.name, v.value) == PairAt(store, layout.places[v]) && v.nextValue == layout.NextValue(v)
    }

    /** The first values are chained from variable to variable, from `k` on. */
    ghost predicate Topped(k: nat)
      reads this, Nodes()
    {
      forall v {:trigger v.nextVariable} | v in Nodes() && layout.places[v].col >= k ::
        v.nextVariable == layout.NextVariable(v)
    }

    ghost predicate Valid()
      reads this, Nodes()
    {
      Shaped() && Chained() && Topped(0) && variables == layout.At(0, 0)
    }

    method AppendValue(lastVar: HttpVar, newVar: HttpVar)
      requires Valid() && lastVar in Nodes() && lastVar.nextValue == null
      requires layout.places[lastVar].col == Find(store, newVar.name)
      requires newVar !in Nodes() && newVar.nextValue == null && newVar.nextVariable == null
      modifies this, Nodes()
      ensures Valid() && newVar in Nodes() && old(Nodes()) <= Nodes() <= old(Nodes()) + {newVar}
      ensures store == Add(old(store), newVar.name, newVar.value)
    {
      ghost var k, n, was, before := layout.places[lastVar].col, layout.places[lastVar].row + 1, layout, store;
      assert n == |store[k].values| by { assert !HasPlace(store, Place(k, n)); }
      lastVar.nextValue := newVar;
      store := Add(store, newVar.name, newVar.value);
      layout := layout.Put(k, n, newVar);
      RejoinValue(was, before, k, n, newVar);
    }

    /** The node, the store and the layout have all been extended. */
    ghost predicate Extended(was: Layout, before: seq<Binding>, k: nat, n: nat, newVar: HttpVar)
      reads this, was.places.Keys, newVar
    {
      was.OneToOne() && was.Fits(before) && newVar !in was.places && layout == was.Put(k, n, newVar) &&
      k == Find(before, newVar.name) && n == (if k < |before| then |before[k].values| else 0) &&
      store == Add(before, newVar.name, newVar.value) && newVar.nextValue == null && newVar.nextVariable == null &&
      forall v {:trigger v.name} {:trigger v.value} | v in was.places ::
        Pair(v.name, v.value) == PairAt(before, was.places[v])
    }

    lemma {:induction false} RejoinValue(was: Layout, before: seq<Binding>, k: nat, n: nat, newVar: HttpVar)
      requires Extended(was, before, k, n, newVar) && k < |before|
      requires forall v {:trigger v.nextValue} | v in was.places ::
        v.nextValue == if was.places[v] == Place(k, n - 1) then newVar else was.NextValue(v)
      requires forall v {:trigger v.nextVariable} | v in was.places :: v.nextVariable == was.NextVariable(v)
      requires variables == was.At(0, 0)
      ensures Valid()
    {
      assert !HasPlace(before, Place(k, n)) && !HasPlace(before, Place(k, n + 1));
      PutOneToOne(was, k, n, newVar);
      PutBehind(was, before, k, newVar, newVar.value);
      forall v | v in Nodes()
        ensures Pair(v.name, v.value) == PairAt(store, layout.places[v])
        ensures v.nextValue == layout.NextValue(v) && v.nextVariable == layout.NextVariable(v)
      {
        AddAt(before, newVar.name, newVar.value, layout.places[v]);
        if v != newVar { BehindNext(was, k, n, newVar, v); }
      }
    }

    method AppendVariable(lastVar: HttpVar?, newVar: HttpVar)
      requires Valid() && newVar !in Nodes() && newVar.nextValue == null && newVar.nextVariable == null
      requires Find(store, newVar.name) == |store|
      requires lastVar == if |store| == 0 then null else layout.At(|store| - 1, 0)
      modifies this, Nodes()
      ensures Valid() && newVar in Nodes() && old(Nodes()) <= Nodes() <= old(Nodes()) + {newVar}
      ensures store == Add(old(store), newVar.name, newVar.value)
    {
      ghost var k, was, before := |store|, layout, store;
      LinkVariable(lastVar, newVar);
      store := Add(store, newVar.name, newVar.value);
      layout := layout.Put(k, 0, newVar);
      RejoinVariable(was, before, k, newVar);
    }

    /** `lastVar->nextVariable = newVar`, or the head of the chain. */
    method LinkVariable(lastVar: HttpVar?, newVar: HttpVar)
      requires Valid() && newVar !in Nodes()
      requires lastVar == if |store| == 0 then null else layout.At(|store| - 1, 0)
      modifies this`variables, Nodes()`nextVariable
      ensures variables == if |store| == 0 then newVar else layout.At(0, 0)
      ensures forall v {:trigger v.nextVariable} | v in Nodes() ::
        v.nextVariable ==
          if layout.places[v].row == 0 && layout.places[v].col + 1 == |store| then newVar else layout.NextVariable(v)
    {
      if |store| > 0 {
        assert HasPlace(store, Place(0, 0)) && HasPlace(store, Place(|store| - 1, 0));
      }
      if lastVar != null {
        lastVar.nextVariable := newVar;
      } else {
        variables := newVar;
      }
    }

    lemma {:induction false} RejoinVariable(was: Layout, before: seq<Binding>, k: nat, newVar: HttpVar)
      requires Extended(was, before, k, 0, newVar) && k == |before|
      requires forall v {:trigger v.nextValue} | v in was.places :: v.nextValue == was.NextValue(v)
      requires forall v {:trigger v.nextVariable} | v in was.places ::
        v.nextVariable == if was.places[v].row == 0 && was.places[v].col + 1 == k then newVar else was.NextVariable(v)
      requires variables == if k == 0 then newVar else was.At(0, 0)
      ensures Valid()
    {
      assert !HasPlace(before, Place(k, 0)) && !HasPlace(before, Place(k, 1)) && !HasPlace(before, Place(k + 1, 0));
      PutOneToOne(was, k, 0, newVar);
      PutLast(was, before, newVar, newVar.name, newVar.value);
      forall v | v in Nodes()
        ensures Pair(v.name, v.value) == PairAt(store, layout.places[v])
        ensures v.nextValue == layout.NextValue(v) && v.nextVariable == layout.NextVariable(v)
      {
        AddAt(before, newVar.name, newVar.value, layout.places[v]);
        if v != newVar { LastNext(was, k, newVar, v); }
      }
    }

    /** `httpdGetVariableByName`: the node that holds the first value added. */
    method GetVariableByName(name: seq<Byte>) returns (found: HttpVar?)
      requires Valid()
      ensures found == null <==> Lookup(store, name) == []
      ensures found != null ==> found in Nodes() && found.name == name && found.value == Lookup(store, name)[0]
      ensures found == layout.At(Find(store, name), 0)
    {
      found := variables;
      ghost var k := 0;
      while found != null
        invariant k <= |store| && found == layout.At(k, 0)
        invariant forall i | 0 <= i < k :: store[i].name != name
        decreases |store| - k
      {
        if found.name == name {
          FindIs(store, name, k);
          return;
        }
        found := found.nextVariable;
        k := k + 1;
      }
      assert !HasPlace(store, Place(k, 0));
    }

    /** The walk along the top chain: the variable of that name, or the last one. */
    method Search(name: seq<Byte>) returns (lastVar: HttpVar?, curVar: HttpVar?)
      requires Valid()
      ensures curVar == layout.At(Find(store, name), 0)
      ensures curVar == null ==> Find(store, name) == |store|
      ensures curVar == null ==> lastVar == if |store| == 0 then null else layout.At(|store| - 1, 0)
    {
      lastVar, curVar := null, variables;
      ghost var k := 0;
      while curVar != null && curVar.name != name
        invariant k <= |store| && curVar == layout.At(k, 0)
        invariant lastVar == if k == 0 then null else layout.At(k - 1, 0)
        invariant forall i | 0 <= i < k :: store[i].name != name
        decreases |store| - k
      {
        lastVar := curVar;
        curVar := curVar.nextVariable;
        k := k + 1;
      }
      if curVar != null { FindIs(store, name, k); }
      if k < |store| { assert HasPlace(store, Place(k, 0)); }
    }

    /** The walk along a chain of values. */
    method LastValue(first: HttpVar) returns (lastVar: HttpVar)
      requires Valid() && first in Nodes() && layout.places[first].row == 0
      ensures lastVar in Nodes() && layout.places[lastVar].col == layout.places[first].col && lastVar.nextValue == null
    {
      lastVar := first;
      var curVar: HttpVar? := first;
      ghost var k, i := layout.places[first].col, 0;
      while curVar != null
        invariant i <= |store[k].values| && curVar == layout.At(k, i)
        invariant lastVar == layout.At(k, if i == 0 then 0 else i - 1)
        decreases |store[k].values| - i
      {
        lastVar := curVar;
        curVar := curVar.nextValue;
        i := i + 1;
      }
    }

    /** `httpdAddVariable`. */
    method AddVariable(name: seq<Byte>, value: Value)
      requires Valid()
      modifies this, Nodes()
      ensures Valid() && fresh(Nodes() - old(Nodes()))
      ensures store == Add(old(store), Strip(name), value)
    {
      var stripped := SkipBlanks(name);
      var newVar := new HttpVar(stripped, value);
      Insert(newVar);
    }

    method Insert(newVar: HttpVar)
      requires Valid() && newVar !in Nodes() && newVar.nextValue == null && newVar.nextVariable == null
      modifies this, Nodes()
      ensures Valid() && newVar in Nodes() && old(Nodes()) <= Nodes() <= old(Nodes()) + {newVar}
      ensures store == Add(old(store), newVar.name, newVar.value)
    {
      var lastVar, curVar := Search(newVar.name);
      if curVar != null {
        lastVar := LastValue(curVar);
        AppendValue(lastVar, newVar);
      } else {
        AppendVariable(lastVar, newVar);
      }
    }

    /** `_httpd_freeVariables`: the nodes handed to `free`, in order. */
    method FreeVariables(curVar: HttpVar?, ghost k: nat) returns (freed: seq<HttpVar>)
      requires Shaped() && Chained() && Topped(k) && k <= |store| && curVar == layout.At(k, 0)
      modifies Nodes()`nextVariable
      ensures freed == Released(layout, store, k)
      decreases |store| - k
    {
      if curVar == null {
        assert !HasPlace(store, Place(k, 0));
        return [];
      }
      freed := FreeVariables(curVar.nextVariable, k + 1);
      curVar.nextVariable := null;
      var cur: HttpVar? := curVar;
      ghost var i, n := 0, |store[k].values|;
      while cur != null
        invariant i <= n && cur == layout.At(k, i)
        invariant freed == Released(layout, store, k + 1) + Column(layout, k, i)
        decreases n - i
      {
        var lastVar := cur;
        cur := cur.nextValue;
        freed := freed + [lastVar];
        i := i + 1;
      }
      assert !HasPlace(store, Place(k, i));
    }
  }
}
