/** The labeled value sets of the asymmetric-cryptography layer: ordered
    lists of (name, integer) pairs that carry key material, ciphertext
    components and signature components. `Set` replaces the value of an
    existing label in place and appends a new label at the end. Sets are
    reached through handles in a `Store`, where copying makes an
    independent set and destroying retires a handle. */
module AcData {
  import opened Errors

  datatype Entry = Entry(name: string, value: int)

  type DataSet = seq<Entry>

  /** Labels are unique within the set. */
  predicate UniqueLabels(d: DataSet)
  {
    forall i, j :: 0 <= i < j < |d| ==> d[i].name != d[j].name
  }

  predicate HasLabel(d: DataSet, name: string)
  {
    exists i :: 0 <= i < |d| && d[i].name == name
  }

  /** The position of the first entry named `name`. */
  function IndexOf(d: DataSet, name: string): (r: Option<nat>)
    ensures r.Some? <==> HasLabel(d, name)
    ensures r.Some? ==> r.value < |d| && d[r.value].name == name
    ensures r.Some? ==> forall k :: 0 <= k < r.value ==> d[k].name != name
  {
    if |d| == 0 then None
    else if d[0].name == name then Some(0)
    else
      match IndexOf(d[1..], name)
      case None =>
        assert forall i :: 0 < i < |d| ==> d[i] == d[1..][i - 1];
        None
      case Some(k) => Some(k + 1)
  }

  /** A position holding `name` with no earlier entry named `name` is the
      one `IndexOf` finds. */
  lemma IndexOfIsFirst(d: DataSet, name: string, k: nat)
    requires k < |d| && d[k].name == name
    requires forall j :: 0 <= j < k ==> d[j].name != name
    ensures IndexOf(d, name) == Some(k)
  {
    assert HasLabel(d, name);
  }

  /** The value stored under `name`; a missing label is a missing item. */
  function Get(d: DataSet, name: string): (r: Result<int>)
    ensures r.Ok? <==> HasLabel(d, name)
    ensures r.Err? ==> r.error == NoObj
    ensures r.Ok? ==> exists i :: 0 <= i < |d| && d[i] == Entry(name, r.value)
  {
    match IndexOf(d, name)
    case None => Err(NoObj)
    case Some(k) => Ok(d[k].value)
  }

  /** Positional access; an index outside the set is an invalid argument. */
  function GetIndex(d: DataSet, i: int): (r: Result<Entry>)
    ensures r.Ok? <==> 0 <= i < |d|
    ensures r.Err? ==> r.error == InvArg
    ensures r.Ok? ==> r.value == d[i]
  {
    if 0 <= i < |d| then Ok(d[i]) else Err(InvArg)
  }

  /** Stores `value` under `name`: the first entry with that label gets
      the new value in place, or, when there is none, a new entry is
      appended. */
  function Set(d: DataSet, name: string, value: int): (r: DataSet)
    ensures HasLabel(d, name) ==> |r| == |d|
    ensures !HasLabel(d, name) ==> r == d + [Entry(name, value)]
  {
    match IndexOf(d, name)
    case None => d + [Entry(name, value)]
    case Some(k) => d[k := Entry(name, value)]
  }

  /** Reading back after `Set` gives the value stored, every other label
      reads as before, and a set with unique labels keeps them unique. */
  lemma SetThenGet(d: DataSet, name: string, value: int, other: string)
    ensures Get(Set(d, name, value), name) == Ok(value)
    ensures other != name ==> Get(Set(d, name, value), other) == Get(d, other)
    ensures UniqueLabels(d) ==> UniqueLabels(Set(d, name, value))
  {
    var r := Set(d, name, value);
    match IndexOf(d, name)
    case None =>
      assert r[|d|] == Entry(name, value);
      assert forall i :: 0 <= i < |d| ==> r[i] == d[i];
      IndexOfIsFirst(r, name, |d|);
      if HasLabel(d, other) {
        var k := IndexOf(d, other).value;
        IndexOfIsFirst(r, other, k);
      } else if other != name {
        assert !HasLabel(r, other);
      }
    case Some(k) =>
      assert forall j :: 0 <= j < |d| && j != k ==> r[j] == d[j];
      IndexOfIsFirst(r, name, k);
      if other != name && HasLabel(d, other) {
        var j := IndexOf(d, other).value;
        assert r[j] == d[j];
        IndexOfIsFirst(r, other, j);
      } else if other != name {
        assert !HasLabel(r, other);
      }
  }

  /** Updating an existing label changes the value at its position and
      nothing else: same length, same labels in the same order. */
  lemma SetInPlace(d: DataSet, name: string, value: int)
    requires HasLabel(d, name)
    ensures var r := Set(d, name, value);
            var k := IndexOf(d, name).value;
            && r[k] == Entry(name, value)
            && (forall i :: 0 <= i < |d| ==> r[i].name == d[i].name)
            && (forall i :: 0 <= i < |d| && i != k ==> r[i] == d[i])
  {
  }

  /** Replacing the first component's value by way of its own label, as a
      tamper test does, changes exactly that component. */
  lemma SetFirstByLabel(d: DataSet, value: int)
    requires |d| > 0
    ensures Set(d, d[0].name, value) == d[0 := Entry(d[0].name, value)]
  {
    assert IndexOf(d, d[0].name) == Some(0);
  }

  /** With unique labels, setting the label of component `i` rewrites
      component `i` and nothing else. */
  lemma SetByLabelAt(d: DataSet, i: nat, value: int)
    requires UniqueLabels(d) && i < |d|
    ensures Set(d, d[i].name, value) == d[i := Entry(d[i].name, value)]
  {
    var k := IndexOf(d, d[i].name).value;
    assert k == i;
  }

  /** The tamper step: read component `i` by position, then write a new
      value under the label read. When `i` is the first component, or the
      labels are unique, exactly component `i` changes, to the new value
      under its own label. */
  lemma GetIndexThenSet(d: DataSet, i: int, value: int)
    requires GetIndex(d, i).Ok?
    requires i == 0 || UniqueLabels(d)
    ensures var e := GetIndex(d, i).value;
            Set(d, e.name, value) == d[i := Entry(e.name, value)]
  {
    if i == 0 {
      SetFirstByLabel(d, value);
    } else {
      SetByLabelAt(d, i, value);
    }
  }

  /** Sets reached through handles. Handles are never reused: `next` is
      above every handle ever issued. */
  datatype Store = Store(sets: map<nat, DataSet>, next: nat)

  ghost predicate Valid(st: Store)
  {
    forall h :: h in st.sets ==> h < st.next
  }

  function EmptyStore(): (st: Store)
    ensures Valid(st) && st.sets == map[]
  {
    Store(map[], 0)
  }

  /** Makes a new set under a fresh handle. */
  function New(st: Store, d: DataSet): (r: (Store, nat))
    requires Valid(st)
    ensures Valid(r.0) && r.1 !in st.sets && r.0.sets == st.sets[r.1 := d]
  {
    (Store(st.sets[st.next := d], st.next + 1), st.next)
  }

  /** Copies the set behind `h` into a new set under a fresh handle; a
      handle that is not live is an invalid object. */
  function Copy(st: Store, h: nat): (r: Result<(Store, nat)>)
    requires Valid(st)
    ensures r.Ok? <==> h in st.sets
    ensures r.Err? ==> r.error == InvObj
    ensures r.Ok? ==>
      var (st', h') := r.value;
      && Valid(st') && h' !in st.sets
      && st'.sets == st.sets[h' := st.sets[h]]
  {
    if h !in st.sets then Err(InvObj) else Ok(New(st, st.sets[h]))
  }

  /** Destroys the set behind `h`; every other set stays as it was. */
  function Destroy(st: Store, h: nat): (r: Result<Store>)
    requires Valid(st)
    ensures r.Ok? <==> h in st.sets
    ensures r.Err? ==> r.error == InvObj
    ensures r.Ok? ==> Valid(r.value) && r.value.sets == st.sets - {h}
  {
    if h !in st.sets then Err(InvObj) else Ok(Store(st.sets - {h}, st.next))
  }

  /** `Set` on the set behind `h`. */
  function SetIn(st: Store, h: nat, name: string, value: int): (r: Result<Store>)
    requires Valid(st)
    ensures r.Ok? <==> h in st.sets
    ensures r.Err? ==> r.error == InvObj
    ensures r.Ok? ==> Valid(r.value) && r.value.sets == st.sets[h := Set(st.sets[h], name, value)]
  {
    if h !in st.sets then Err(InvObj) else Ok(Store(st.sets[h := Set(st.sets[h], name, value)], st.next))
  }

  /** A copy is independent of its source: updating or destroying the one
      leaves the other's contents unchanged. */
  lemma CopyIndependent(st: Store, h: nat, name: string, value: int)
    requires Valid(st) && h in st.sets
    ensures var (st1, h1) := Copy(st, h).value;
            && h1 != h
            && st1.sets[h1] == st.sets[h]
            && SetIn(st1, h1, name, value).value.sets[h] == st.sets[h]
            && SetIn(st1, h, name, value).value.sets[h1] == st.sets[h]
            && Destroy(st1, h).value.sets[h1] == st.sets[h]
            && Destroy(st1, h1).value.sets[h] == st.sets[h]
  {
  }

  /** Copy, destroy the source, copy back, destroy the intermediate: the
      surviving handle holds exactly the original contents, and it is the
      only set the sequence left behind. */
  lemma CopyDestroyCopyDestroy(st: Store, h: nat)
    requires Valid(st) && h in st.sets
    ensures var (st1, h2) := Copy(st, h).value;
            var st2 := Destroy(st1, h).value;
            Copy(st2, h2).Ok? &&
            var (st3, h3) := Copy(st2, h2).value;
            var st4 := Destroy(st3, h2).value;
            && h3 in st4.sets && st4.sets[h3] == st.sets[h]
            && st4.sets.Keys == st.sets.Keys - {h} + {h3}
  {
  }
}
