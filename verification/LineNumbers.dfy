/** The line numbers of an instruction sequence: what is looked up is what was compiled. */
module LineNumbers {
  import opened Layout

  predicate Ascending(table: seq<Line>) {
    forall i, j :: 0 <= i < j < |table| ==> table[i].position < table[j].position
  }

  /** Entry i is the one for address pos: the last at or before it, or the first of all. */
  predicate Covers(table: seq<Line>, i: nat, pos: nat) {
    && i < |table| && (i > 0 ==> table[i].position <= pos)
    && forall j :: i < j < |table| ==> pos < table[j].position
  }

  lemma CoversOne(table: seq<Line>, i: nat, j: nat, pos: nat)
    requires Covers(table, i, pos) && Covers(table, j, pos)
    ensures i == j
  {
  }

  /** find_line_no and get_line_info */
  method FindLine(table: seq<Line>, pos: nat) returns (line: int, at: nat)
    requires Ascending(table)
    ensures if table == [] then line == 0 else Covers(table, at, pos) && line == table[at].line
  {
    at := 0;
    if |table| == 0 { return 0, 0; }
    if |table| == 1 { return table[0].line, 0; }
    var i := 1;
    while i < |table|
      invariant 1 <= i <= |table|
      invariant forall j :: 1 <= j < i ==> table[j].position < pos
    {
      if table[i].position == pos { return table[i].line, i; }
      if table[i].position > pos { return table[i - 1].line, i - 1; }
      i := i + 1;
    }
    return table[i - 1].line, i - 1;
  }

  /** Entries of the first elements come first, at addresses before those of the rest. */
  lemma {:induction false} Entries(t: Table, es: seq<Item>, a: nat, b: nat)
    requires a <= b <= |es|
    ensures LineTable(t, es, a) <= LineTable(t, es, b)
    ensures forall i :: 0 <= i < |LineTable(t, es, a)| ==> LineTable(t, es, a)[i].position < At(t, es, a)
    ensures forall i :: |LineTable(t, es, a)| <= i < |LineTable(t, es, b)| ==>
                          At(t, es, a) <= LineTable(t, es, b)[i].position
    decreases b
  {
    if a < b {
      Entries(t, es, a, b - 1);
      AtMonotone(t, es, a, b - 1);
    } else if a > 0 {
      Entries(t, es, a - 1, a - 1);
      Grows(t, es, a);
    }
  }

  lemma Grows(t: Table, es: seq<Item>, a: nat)
    requires 0 < a <= |es|
    ensures At(t, es, a - 1) <= At(t, es, a) && (Sized(es[a - 1]) ==> At(t, es, a - 1) < At(t, es, a))
  {
  }

  lemma {:induction false} TableAscending(t: Table, es: seq<Item>, n: nat)
    requires n <= |es|
    ensures Ascending(LineTable(t, es, n))
  {
    if n > 0 {
      TableAscending(t, es, n - 1);
      Entries(t, es, n - 1, n - 1);
    }
  }

  /** The last entry has the line of the last element; without entries all lines are 0. */
  lemma {:induction false} LastEntry(t: Table, es: seq<Item>, n: nat)
    requires n <= |es|
    ensures var table := LineTable(t, es, n);
            if table == [] then LastLine(es, n) == 0 else table[|table| - 1].line == LastLine(es, n)
    ensures LineTable(t, es, n) == [] <==> forall j :: 0 <= j < n && Sized(es[j]) ==> es[j].line == 0
  {
    if n > 0 { LastEntry(t, es, n - 1); }
  }

  /** The first entry is made for a line other than 0. */
  lemma {:induction false} FirstEntry(t: Table, es: seq<Item>, n: nat)
    requires 0 < n <= |es| && LineTable(t, es, n) != []
    ensures LineTable(t, es, n)[0].line != 0
  {
    hide At, LineTable, LastLine, Sized;
    TableFirst(t, es, n);
    LastEntry(t, es, n - 1);
    if LineTable(t, es, n - 1) != [] { FirstEntry(t, es, n - 1); }
  }

  lemma TableFirst(t: Table, es: seq<Item>, n: nat)
    requires 0 < n <= |es| && LineTable(t, es, n) != []
    ensures if LineTable(t, es, n - 1) == [] then LineTable(t, es, n)[0].line != LastLine(es, n - 1)
            else LineTable(t, es, n)[0] == LineTable(t, es, n - 1)[0]
  {
    hide At;
  }

  lemma CoversLast(t: Table, es: seq<Item>, k: nat)
    requires k < |es| && Sized(es[k]) && LineTable(t, es, k + 1) != []
    ensures Covers(LineTable(t, es, |es|), |LineTable(t, es, k + 1)| - 1, At(t, es, k))
  {
    hide At, LineTable;
    var table, part := LineTable(t, es, |es|), LineTable(t, es, k + 1);
    Entries(t, es, k + 1, |es|);
    Grows(t, es, k + 1);
    PartCovers(t, es, k);
    assert table[|part| - 1] == part[|part| - 1];
  }

  lemma PartCovers(t: Table, es: seq<Item>, k: nat)
    requires k < |es| && LineTable(t, es, k + 1) != []
    ensures var part := LineTable(t, es, k + 1); part[|part| - 1].position <= At(t, es, k)
  {
    Entries(t, es, k, k);
  }

  /** Before the first entry it is the first one that is found. */
  lemma CoversFirst(t: Table, es: seq<Item>, k: nat, at: nat)
    requires k < |es| && Sized(es[k]) && LineTable(t, es, k + 1) == []
    requires Covers(LineTable(t, es, |es|), at, At(t, es, k))
    ensures at == 0
  {
    hide At, LineTable;
    Entries(t, es, k + 1, |es|);
    Grows(t, es, k + 1);
  }

  /** The line that is looked up with entry at */
  function LookedUp(table: seq<Line>, at: nat): int
    requires table != [] ==> at < |table|
  {
    if table == [] then 0 else table[at].line
  }

  lemma FoundByTable(t: Table, es: seq<Item>, k: nat, at: nat)
    requires k < |es| && Sized(es[k])
    requires LineTable(t, es, |es|) != [] ==> Covers(LineTable(t, es, |es|), at, At(t, es, k))
    ensures LookedUp(LineTable(t, es, |es|), at) == es[k].line <==>
              LineTable(t, es, k + 1) != [] || LineTable(t, es, |es|) == []
  {
    hide At, LineTable, Covers;
    var table, part := LineTable(t, es, |es|), LineTable(t, es, k + 1);
    LastEntry(t, es, k + 1);
    Entries(t, es, k + 1, |es|);
    if part != [] {
      CoversLast(t, es, k);
      CoversOne(table, at, |part| - 1, At(t, es, k));
    } else if table != [] {
      FirstEntry(t, es, |es|);
      CoversFirst(t, es, k, at);
    }
  }

  /** Exactly when the line that is looked up for an element is its own: some element up to it has a
      line other than 0, or none has. */
  lemma LineFound(t: Table, es: seq<Item>, k: nat, at: nat)
    requires k < |es| && Sized(es[k])
    requires LineTable(t, es, |es|) != [] ==> Covers(LineTable(t, es, |es|), at, At(t, es, k))
    ensures LookedUp(LineTable(t, es, |es|), at) == es[k].line <==>
              || (exists j :: 0 <= j <= k && Sized(es[j]) && es[j].line != 0)
              || (forall j :: 0 <= j < |es| && Sized(es[j]) ==> es[j].line == 0)
  {
    hide At, LineTable, Covers, LookedUp;
    FoundByTable(t, es, k, at);
    LastEntry(t, es, k + 1);
    LastEntry(t, es, |es|);
  }
}
