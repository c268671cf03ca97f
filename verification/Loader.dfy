/** The loading loop that the services, limits and env scanners share, over any codec and any way to grow the array. */
module Loader {
  import opened CStrings
  import opened Scanner
  import opened Table

  /** What a full array grows to, from the capacity recorded so far: its slots, and the capacity recorded for them. */
  datatype Growth = Growth(slots: nat -> nat, capacity: nat -> nat)

  /** How a load ends: at the end of the file, by exiting, or at a write behind the array. */
  datatype LoadEnd = Complete | Refused | OutOfBounds

  function ToOutcome<R>(end: LoadEnd, rows: seq<R>): Outcome<R> {
    match end
    case Complete => Loaded(rows)
    case Refused => Rejected
    case OutOfBounds => Corrupted
  }

  /** Which counts, recorded capacities and array lengths occur together. */
  type Shape = (nat, nat, nat) -> bool

  /** In every such shape the codec knows whether one more record fits, and appending one leads to such a shape. */
  ghost predicate Tracks<R>(c: Codec<R>, g: Growth, shape: Shape) {
    forall n: nat, capacity: nat, length: nat :: shape(n, capacity, length) ==>
      && n <= length
      && (n < capacity ==> (c.fits(n) <==> n < length))
      && (n >= capacity ==> (c.fits(n) <==> n < g.slots(capacity)))
      && (n < capacity && c.fits(n) ==> shape(n + 1, capacity, length))
      && (n >= capacity && c.fits(n) ==> shape(n + 1, g.capacity(capacity), g.slots(capacity)))
  }

  ghost predicate Shaped<R>(t: Table<R>, shape: Shape)
    reads t, t.slots
  {
    t.Valid() && t.slots != null && shape(t.count, t.capacity, t.slots.Length)
  }

  function Clashing<R>(c: Codec<R>, r: R): R -> bool {
    (x: R) => c.clash(x, r)
  }

  /** A scan for the records that clash with r decides whether one does. */
  lemma ClashIsFirst<R(!new)>(c: Codec<R>, rows: seq<R>, r: R, p: R -> bool)
    requires forall x :: p(x) <==> c.clash(x, r)
    ensures ClashesWith(c, rows, r) <==> First(rows, p) < |rows|
  {
  }

  /** `loadProject`, `loadLimit`, `loadEnv` and the registration in `addProject`: refuse a clash, grow, append. */
  method LoadRecord<R(!new)>(c: Codec<R>, g: Growth, t: Table<R>, r: R, ghost shape: Shape) returns (end: LoadEnd)
    requires Tracks(c, g, shape) && Shaped(t, shape)
    modifies t, t.slots
    ensures Shaped(t, shape) && (t.slots == old(t.slots) || fresh(t.slots)) && t.freed == old(t.freed)
    ensures forall cell :: cell in t.cells ==> cell in old(t.cells) || fresh(cell)
    ensures end == if ClashesWith(c, old(t.Rows()), r) then Refused
                   else if !c.fits(old(t.count)) then OutOfBounds
                   else Complete
    ensures t.Rows() == if end == Complete then old(t.Rows()) + [r] else old(t.Rows())
  {
    hide ClashesWith;
    var k := t.FindFirst(Clashing(c, r));
    ClashIsFirst(c, t.Rows(), r, Clashing(c, r));
    if k < t.count {
      return Refused;
    }
    var inside := t.Append(r, g.slots(t.capacity), g.capacity(t.capacity));
    end := if inside then Complete else OutOfBounds;
  }

  /** The scanner's case of a completed record: it is decoded and handed to the loader. */
  method Deliver<R(!new)>(
    c: Codec<R>, g: Growth, t: Table<R>, fields: seq<string>,
    ghost shape: Shape, ghost data: string, ghost last: nat, ghost i: nat, ghost whole: Outcome<R>)
    returns (end: LoadEnd)
    requires Tracks(c, g, shape) && Shaped(t, shape)
    requires |fields| == |c.ds| > 0 && last <= i < |data| && data[i] == c.ds[|fields| - 1]
    requires ScanAt(c, fields[..|fields| - 1], data, last, i, t.Rows(), whole)
    requires fields[|fields| - 1] == CutAtNul(data[last..i]) && !c.aborts(|fields| - 1, fields[|fields| - 1])
    modifies t, t.slots
    ensures Shaped(t, shape) && (t.slots == old(t.slots) || fresh(t.slots)) && t.freed == old(t.freed)
    ensures forall cell :: cell in t.cells ==> cell in old(t.cells) || fresh(cell)
    ensures if end == Complete then ScanAt(c, [], data, i + 1, i + 1, t.Rows(), whole)
            else whole == ToOutcome(end, t.Rows())
  {
    hide ScanAt;
    hide CutAtNul;
    ghost var pending := fields[..|fields| - 1];
    assert pending + [fields[|fields| - 1]] == fields;
    ScanDeliver(c, pending, data, last, i, t.Rows(), whole);
    end := LoadRecord(c, g, t, c.decode(fields), shape);
  }

  /** The state machine of the scanners; the number of fields read so far is its state. */
  method LoadFile<R(!new)>(c: Codec<R>, g: Growth, t: Table<R>, data: string, ghost shape: Shape)
    returns (end: LoadEnd, state: nat, lastIndex: nat)
    requires |c.ds| > 0 && Tracks(c, g, shape) && Shaped(t, shape)
    modifies t, t.slots
    ensures Shaped(t, shape) && (t.slots == old(t.slots) || fresh(t.slots)) && t.freed == old(t.freed)
    ensures forall cell :: cell in t.cells ==> cell in old(t.cells) || fresh(cell)
    ensures LoadFrom(c, Tokens(c.ds, 0, data), old(t.Rows())) == ToOutcome(end, t.Rows())
    ensures end == Complete ==> lastIndex <= |data| && data[lastIndex..] == Remainder(c.ds, 0, data)
    ensures end == Complete ==> state == EndPhase(c, data)
  {
    hide LoadFrom;
    hide ScanAt;
    hide Tracks;
    ghost var whole := LoadFrom(c, Tokens(c.ds, 0, data), t.Rows());
    var fields: seq<string> := [];
    var i := 0;
    state, lastIndex := 0, 0;
    ScanBegin(c, data, t.Rows());
    while i < |data|
      invariant lastIndex <= i <= |data| && state == |fields| < |c.ds|
      invariant ScanAt(c, fields, data, lastIndex, i, t.Rows(), whole)
      invariant Shaped(t, shape) && (t.slots == old(t.slots) || fresh(t.slots)) && t.freed == old(t.freed)
      invariant forall cell :: cell in t.cells ==> cell in old(t.cells) || fresh(cell)
    {
      if data[i] != c.ds[state] {
        ScanSkip(c, fields, data, lastIndex, i, t.Rows(), whole);
      } else {
        var field := CutAtNul(data[lastIndex..i]);
        if c.aborts(state, field) {
          ScanAbort(c, fields, data, lastIndex, i, t.Rows(), whole);
          end := Refused;
          return;
        }
        if state + 1 == |c.ds| {
          assert (fields + [field])[..state] == fields;
          end := Deliver(c, g, t, fields + [field], shape, data, lastIndex, i, whole);
          if end != Complete {
            return;
          }
          fields := [];
        } else {
          ScanTake(c, fields, data, lastIndex, i, t.Rows(), whole);
          fields := fields + [field];
        }
        state, lastIndex := |fields|, i + 1;
      }
      i := i + 1;
    }
    ScanFinish(c, fields, data, lastIndex, t.Rows(), whole);
    end := Complete;
  }
}
