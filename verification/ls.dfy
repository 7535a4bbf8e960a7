/**
 `Command\Ls`, the `list` command: one table row per registered command.
 */
module Ls {
  import opened Nullable
  import opened OrderedMaps
  import opened Commands
  import opened Router

  /** First cell of a row: the key wrapped in `<info>` tags. */
  function InfoCell(key: string): string {
    "<info>" + key + "</info>"
  }

  function Row(e: Entry<Command>): seq<string> {
    [InfoCell(e.key), e.value.description]
  }

  /** The table `Ls::execute` hands to the console, in registry order. */
  function Rows(r: Registry): (rows: seq<seq<string>>)
    ensures |rows| == |r|
    ensures forall i :: 0 <= i < |r| ==> rows[i] == Row(r[i])
  {
    seq(|r|, i requires 0 <= i < |r| => Row(r[i]))
  }

  /** Registering a new name appends its row at the bottom. */
  lemma RowsAfterAddingNew(r: Registry, c: Command)
    requires c.name !in Keys(r)
    ensures Rows(AddCommand(r, c)) == Rows(r) + [Row(Entry(c.name, c))]
  {
    assert AddCommand(r, c) == r + [Entry(c.name, c)];
  }

  /** Registering a name already present replaces that row in place and
      leaves every other row as it was. */
  lemma RowsAfterOverwriting(r: Registry, c: Command)
    requires c.name in Keys(r)
    ensures var i := FindIndex(r, c.name).value;
            Rows(AddCommand(r, c)) == Rows(r)[i := Row(Entry(c.name, c))]
  {
    var i := FindIndex(r, c.name).value;
    var r' := AddCommand(r, c);
    assert r' == r[i := Entry(c.name, c)];
    var rows, rows' := Rows(r), Rows(r');
    assert |rows'| == |rows|;
    forall j | 0 <= j < |rows'| ensures rows'[j] == rows[i := Row(Entry(c.name, c))][j] {
      if j == i {
        assert r'[j] == Entry(c.name, c);
      } else {
        assert r'[j] == r[j];
      }
    }
  }
}
