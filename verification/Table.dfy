/**
 * The growable pointer array behind all four registries. A cell is one heap-allocated record; the table holds
 * pointers to cells, how many there are, and the capacity it believes its array to have.
 */
module Table {

  class Cell<R> {
    var rec: R

    constructor (rec: R)
      ensures this.rec == rec
    {
      this.rec := rec;
    }
  }

  /** The records that a list of cells holds. */
  ghost function Recs<R>(cells: seq<Cell<R>>): (rows: seq<R>)
    reads cells
    ensures |rows| == |cells|
    ensures forall i :: 0 <= i < |cells| ==> rows[i] == cells[i].rec
  {
    seq(|cells|, i requires 0 <= i < |cells| reads cells => cells[i].rec)
  }

  lemma RecsWithout<R>(cells: seq<Cell<R>>, k: nat)
    requires k < |cells|
    ensures Recs(cells[..k] + cells[k + 1..]) == Recs(cells)[..k] + Recs(cells)[k + 1..]
  {
  }

  /** Position of the first record that satisfies p, or |rows|. */
  function First<R>(rows: seq<R>, p: R -> bool): (k: nat)
    ensures k <= |rows|
    ensures forall i :: 0 <= i < k ==> !p(rows[i])
    ensures k < |rows| ==> p(rows[k])
  {
    if rows == [] || p(rows[0]) then 0 else 1 + First(rows[1..], p)
  }

  lemma {:induction false} FirstUnique<R>(rows: seq<R>, p: R -> bool, k: nat)
    requires k <= |rows|
    requires forall i :: 0 <= i < k ==> !p(rows[i])
    requires k < |rows| ==> p(rows[k])
    ensures First(rows, p) == k
  {
  }

  /** rows without its first record that satisfies p. */
  function Without<R>(rows: seq<R>, p: R -> bool): seq<R> {
    var k := First(rows, p);
    if k == |rows| then rows else rows[..k] + rows[k + 1..]
  }

  lemma WithoutIndex<R>(rows: seq<R>, p: R -> bool)
    ensures First(rows, p) == |rows| ==> Without(rows, p) == rows
    ensures First(rows, p) < |rows| ==> Without(rows, p) == rows[..First(rows, p)] + rows[First(rows, p) + 1..]
  {
  }

  /** rows with its first record that satisfies p replaced. */
  function UpdateFirst<R>(rows: seq<R>, p: R -> bool, f: R -> R): seq<R> {
    var k := First(rows, p);
    if k == |rows| then rows else rows[k := f(rows[k])]
  }

  lemma UpdateAtFirst<R>(rows: seq<R>, p: R -> bool, f: R -> R)
    ensures var k := First(rows, p);
            UpdateFirst(rows, p, f) == if k < |rows| then rows[k := f(rows[k])] else rows
  {
  }

  datatype DeleteState = Find | Free | Shift | Delete

  class Table<R> {
    var slots: array?<Cell?<R>>
    var count: nat
    var capacity: nat
    ghost var cells: seq<Cell<R>>
    ghost var freed: set<Cell<R>>

    /** The live prefix points at pairwise different cells, none of them freed; without an array there are none. */
    ghost predicate Valid()
      reads this, slots
    {
      && count == |cells|
      && (slots == null ==> count == 0)
      && (slots != null ==> count <= slots.Length && forall i :: 0 <= i < count ==> slots[i] == cells[i])
      && (forall i, j :: 0 <= i < j < count ==> cells[i] != cells[j])
      && (forall i :: 0 <= i < count ==> cells[i] !in freed)
    }

    /** Between operations: unless the table gave up its array, the recorded capacity is backed by slots. */
    ghost predicate Backed()
      reads this, slots
    {
      Valid() && count <= capacity && (slots != null ==> capacity <= slots.Length)
    }

    /** Backed, with its array there to append to. */
    ghost predicate Open()
      reads this, slots
    {
      Backed() && slots != null
    }

    /** Array and cells are those from before, or new; the array may have been given up. */
    twostate predicate Within()
      reads this
    {
      && (slots == null || slots == old(slots) || fresh(slots))
      && forall cell :: cell in cells ==> cell in old(cells) || fresh(cell)
    }

    /** The abstract value: the records in order. */
    ghost function Rows(): seq<R>
      reads this, cells
    {
      Recs(cells)
    }

    /** `malloc(n * sizeof(cell*))` with the counters at their start values. */
    constructor (n: nat)
      ensures Valid() && fresh(slots) && slots != null && slots.Length == n
      ensures count == 0 && capacity == n && cells == [] && freed == {}
    {
      slots := new Cell?<R>[n](_ => null);
      count, capacity := 0, n;
      cells, freed := [], {};
    }

    /** The scan loop of every lookup and duplicate check. */
    method FindFirst(p: R -> bool) returns (k: nat)
      requires Valid()
      ensures k == First(Rows(), p)
    {
      k := 0;
      while k < count
        invariant k <= count
        invariant forall i :: 0 <= i < k ==> !p(Rows()[i])
      {
        if p(slots[k].rec) {
          break;
        }
        k := k + 1;
      }
      FirstUnique(Rows(), p, k);
    }

    /** Whether one more append, growing to newLength slots if count has reached capacity, writes inside the array. */
    ghost predicate Room(newLength: nat)
      reads this
    {
      slots != null && if count >= capacity then count < newLength else count < slots.Length
    }

    /** `realloc` when the count has reached the capacity; the new array has room for what was there and one more. */
    method Grow(newLength: nat, newCapacity: nat)
      requires Valid() && Room(newLength)
      modifies `slots, `capacity
      ensures Valid() && slots != null && count < slots.Length
      ensures if old(count >= capacity)
              then fresh(slots) && slots.Length == newLength && capacity == newCapacity
              else slots == old(slots) && capacity == old(capacity)
    {
      if count >= capacity {
        var grown := new Cell?<R>[newLength](_ => null);
        forall i | 0 <= i < count {
          grown[i] := slots[i];
        }
        slots, capacity := grown, newCapacity;
      }
    }

    /** Write the pointer to a new cell behind the live prefix and count it. */
    method Push(rec: R)
      requires Valid() && slots != null && count < slots.Length
      modifies `count, `cells, slots
      ensures Valid()
      ensures |cells| == old(|cells|) + 1 && cells[..old(|cells|)] == old(cells) && fresh(cells[old(|cells|)])
      ensures Rows() == old(Rows()) + [rec]
    {
      var cell := new Cell(rec);
      slots[count] := cell;
      count := count + 1;
      cells := cells + [cell];
    }

    /** `realloc` if needed and the write of the new pointer; false stands for a write behind the array. */
    method Append(rec: R, newLength: nat, newCapacity: nat) returns (inside: bool)
      requires Valid() && slots != null
      modifies this, slots
      ensures Valid() && slots != null && (slots == old(slots) || fresh(slots)) && freed == old(freed)
      ensures inside == old(Room(newLength))
      ensures !inside ==> slots == old(slots) && capacity == old(capacity) && cells == old(cells)
      ensures inside ==> |cells| == old(|cells|) + 1 && cells[..old(|cells|)] == old(cells)
      ensures inside ==> fresh(cells[old(|cells|)])
      ensures inside ==> capacity == if old(count >= capacity) then newCapacity else old(capacity)
      ensures inside ==> slots.Length == if old(count >= capacity) then newLength else old(slots.Length)
      ensures Rows() == if inside then old(Rows()) + [rec] else old(Rows())
    {
      inside := if count >= capacity then count < newLength else count < slots.Length;
      if inside {
        Grow(newLength, newCapacity);
        Push(rec);
      }
    }

    /** Overwrite fields of the record that slot k points at. */
    method Overwrite(k: nat, rec: R)
      requires Valid() && k < count
      modifies cells
      ensures Valid()
      ensures Rows() == old(Rows())[k := rec]
    {
      slots[k].rec := rec;
    }

    /** Free every cell and the array, forget both counters, and start over with a new array of n slots. */
    method Restart(n: nat)
      requires Valid()
      modifies this
      ensures Valid() && fresh(slots) && slots != null && slots.Length == n
      ensures count == 0 && capacity == 0 && cells == []
      ensures freed == old(freed) + set c | c in old(cells)
    {
      if slots != null {
        var i := 0;
        while i < count
          invariant i <= count && slots == old(slots) && cells == old(cells) && count == |cells|
          invariant freed == old(freed) + set c | c in cells[..i]
        {
          assert cells[..i + 1] == cells[..i] + [cells[i]];
          freed := freed + {slots[i]};
          i := i + 1;
        }
        assert cells[..i] == cells;
      }
      count, capacity := 0, 0;
      slots := new Cell?<R>[n](_ => null);
      cells := [];
    }

    /**
     * The one-loop deletion machine: find the first match, free its cell, shift every later pointer down by one, and
     * at the last index drop the count; an emptied table also gives up its array. k is where the match is.
     */
    method DeleteLoop(p: R -> bool, ghost k: nat) returns (found: bool)
      requires Valid() && k <= count
      requires forall i :: 0 <= i < k ==> !p(cells[i].rec)
      requires k < count ==> p(cells[k].rec)
      modifies `slots, `count, `freed, slots
      ensures found == (k < |cells|)
      ensures !found ==> count == |cells| && slots == old(slots) && freed == old(freed)
      ensures !found && slots != null ==> forall j :: 0 <= j < count ==> slots[j] == cells[j]
      ensures found ==> count == |cells| - 1 && freed == old(freed) + {cells[k]}
      ensures found ==> slots == if count == 0 then null else old(slots)
      ensures found && slots != null ==> forall j :: 0 <= j < k ==> slots[j] == cells[j]
      ensures found && slots != null ==> forall j :: k <= j < count ==> slots[j] == cells[j + 1]
    {
      var state := Find;
      var i := 0;
      while i < count
        invariant 0 <= i <= count == |cells| && slots == old(slots)
        invariant state == Find || (state == Shift && k < i < count)
        invariant state == Find ==> i <= k && freed == old(freed)
        invariant state == Shift ==> freed == old(freed) + {cells[k]}
        invariant forall j :: 0 <= j < count && (state == Find || j < k || i <= j) ==> slots[j] == cells[j]
        invariant forall j :: k <= j < i && state == Shift ==> slots[j] == cells[j + 1]
      {
        if state == Find {
          if p(slots[i].rec) {
            state := Free;
          }
        }
        if state == Free {
          freed := freed + {slots[i]};
          state := Shift;
        }
        if state == Shift {
          if i == count - 1 {
            state := Delete;
          } else {
            slots[i] := slots[i + 1];
          }
        }
        if state == Delete {
          count := count - 1;
          if count == 0 {
            slots := null;
          }
          return true;
        }
        i := i + 1;
      }
      return false;
    }

    /** The ghost side of a deletion: the cell at k is no longer part of the live prefix. */
    ghost method DropCell(k: nat)
      requires k < |cells| && count == |cells| - 1
      requires slots == null ==> count == 0
      requires slots != null ==> count <= slots.Length
      requires slots != null ==> forall j :: 0 <= j < k ==> slots[j] == cells[j]
      requires slots != null ==> forall j :: k <= j < count ==> slots[j] == cells[j + 1]
      requires forall i, j :: 0 <= i < j < |cells| ==> cells[i] != cells[j]
      requires forall i :: 0 <= i < |cells| && i != k ==> cells[i] !in freed
      modifies `cells
      ensures Valid()
      ensures cells == old(cells)[..k] + old(cells)[k + 1..]
    {
      cells := cells[..k] + cells[k + 1..];
    }

    /** Deletion of the first record that satisfies p, on the abstract value. */
    method RemoveFirst(p: R -> bool) returns (found: bool)
      requires Valid()
      modifies this, slots
      ensures Valid() && capacity == old(capacity)
      ensures found == (First(old(Rows()), p) < old(count))
      ensures Rows() == Without(old(Rows()), p)
      ensures found ==> var k := First(old(Rows()), p);
              cells == old(cells[..k] + cells[k + 1..]) && freed == old(freed) + {old(cells[k])}
      ensures slots == if found && count == 0 then null else old(slots)
      ensures !found ==> cells == old(cells) && freed == old(freed)
    {
      hide First;
      hide Without;
      hide Recs;
      ghost var k := First(Rows(), p);
      WithoutIndex(Rows(), p);
      found := DeleteLoop(p, k);
      if found {
        RecsWithout(cells, k);
        DropCell(k);
      }
    }
  }
}
