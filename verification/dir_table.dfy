// The in-memory directory table, searched and updated in place (src/chisai-core/dir.c).
module DirTables {
  import opened Tables

  class DirTable {
    const node: array<Slot>
    var size: nat
    const checksum: nat

    ghost function Model(): (t: Table)
      reads this, node
      requires node.Length == SLOTS
    {
      Table(node[..], size, checksum)
    }

    /** Load a table that was stored on the device. */
    constructor Load(t: Table)
      ensures fresh(node) && node.Length == SLOTS && Model() == t
    {
      node := new Slot[SLOTS](i requires 0 <= i < SLOTS => t.slots[i]);
      size := t.size;
      checksum := t.checksum;
    }

    /** `strcmp` on slot `i`: on the table's memory from there on. */
    predicate Matches(i: nat, name: Name)
      reads this, node
      requires node.Length == SLOTS && i < SLOTS
    {
      StrEq(Tail(Table(node[..], size, checksum), i), name)
    }

    method FileInodeIdx(name: Name) returns (idx: nat)
      requires node.Length == SLOTS && SearchStays(Model(), name)
      ensures idx == Lookup(Model(), name)
    {
      ghost var t := Model();
      for i := 0 to size
        invariant i <= Used(t) && Search(t, name, 0) == Search(t, name, i)
      {
        assert StrStays(Tail(t, i), name);
        if Matches(i, name) {
          return node[i].idx;
        }
      }
      return 0;
    }

    method Insert(name: Name, idx: nat) returns (ok: bool)
      requires node.Length == SLOTS
      modifies this, node
      ensures (Model(), ok) == Tables.Insert(old(Model()), name, idx)
    {
      if size >= SLOTS {
        return false;
      }
      node[size] := Slot(StrCpy(node[size].name, name), idx);
      size := size + 1;
      return true;
    }

    method Remove(name: Name) returns (idx: nat)
      requires node.Length == SLOTS && size <= SLOTS && SearchStays(Model(), name)
      modifies this, node
      ensures (Model(), idx) == Tables.Remove(old(Model()), name)
    {
      ghost var t := Model();
      var i := 0;
      while i < size
        invariant 0 <= i <= size && Model() == t
        invariant Search(t, name, 0) == Search(t, name, i)
      {
        assert StrStays(Tail(t, i), name);
        if Matches(i, name) {
          idx := node[i].idx;
          size := size - 1;
          node[i] := node[size];
          return;
        }
        i := i + 1;
      }
      return 0;
    }
  }
}
