/** The demand table and the two filters of the dashboard: an exact match on
    the demand number and a case-insensitive match of the supervisor against
    a selection of names. Each filter is skipped when its input is empty; the
    two compose by being applied one after the other. */
module Demands {
  import opened Text

  /** One row of the loaded table. `number` is the `#` field already turned
      into its string form; the other fields are `supervisor`,
      `Classificação` and `Cidade`. */
  datatype Demand = Demand(number: string, supervisor: string, classification: string, city: string)

  /** `a` is `b` with some rows removed and the others kept in order. */
  ghost predicate IsSubsequence<T>(a: seq<T>, b: seq<T>)
    decreases |b|
  {
    if a == [] then true
    else if b == [] then false
    else (a[0] == b[0] && IsSubsequence(a[1..], b[1..])) || IsSubsequence(a, b[1..])
  }

  /** The rows whose number is exactly `number` (the mask `# == number`). */
  function WithNumber(rows: seq<Demand>, number: string): seq<Demand>
  {
    if rows == [] then []
    else if rows[0].number == number then [rows[0]] + WithNumber(rows[1..], number)
    else WithNumber(rows[1..], number)
  }

  /** The rows whose lower-cased supervisor is one of `lowered` (the mask
      `supervisor.str.lower().isin(lowered)`). */
  function WithSupervisorIn(rows: seq<Demand>, lowered: seq<string>): seq<Demand>
  {
    if rows == [] then []
    else if Lower(rows[0].supervisor) in lowered then [rows[0]] + WithSupervisorIn(rows[1..], lowered)
    else WithSupervisorIn(rows[1..], lowered)
  }

  /** The selected names, each lower-cased, in the same order. */
  function LowerAll(names: seq<string>): (r: seq<string>)
    ensures |r| == |names|
    ensures forall i :: 0 <= i < |names| ==> r[i] == Lower(names[i])
  {
    if names == [] then [] else [Lower(names[0])] + LowerAll(names[1..])
  }

  /** The filter block of the dashboard: the number filter when `number` is
      not empty, then the supervisor filter when `selection` is not empty. */
  function Filter(rows: seq<Demand>, number: string, selection: seq<string>): seq<Demand>
  {
    var byNumber := if number != "" then WithNumber(rows, number) else rows;
    if selection != [] then WithSupervisorIn(byNumber, LowerAll(selection)) else byNumber
  }

  /** Whether one row passes both criteria. */
  predicate Keeps(d: Demand, number: string, selection: seq<string>)
  {
    && (number == "" || d.number == number)
    && (selection == [] || exists i :: 0 <= i < |selection| && Lower(selection[i]) == Lower(d.supervisor))
  }

  /** Reference definition: one pass over the rows, keeping those that pass
      both criteria at once. */
  function Selected(rows: seq<Demand>, number: string, selection: seq<string>): (r: seq<Demand>)
    ensures IsSubsequence(r, rows)
    ensures forall d :: d in r <==> d in rows && Keeps(d, number, selection)
    ensures forall d :: multiset(r)[d] == if Keeps(d, number, selection) then multiset(rows)[d] else 0
  {
    if rows == [] then []
    else
      var rest := Selected(rows[1..], number, selection);
      assert rows == [rows[0]] + rows[1..];
      if Keeps(rows[0], number, selection) then [rows[0]] + rest else rest
  }

  /** The number mask is the one-pass selection by number alone. */
  lemma {:induction false} WithNumberIsSelected(rows: seq<Demand>, number: string)
    requires number != ""
    ensures WithNumber(rows, number) == Selected(rows, number, [])
  {
    if rows != [] {
      WithNumberIsSelected(rows[1..], number);
    }
  }

  /** On rows that already pass the number criterion, the supervisor mask is
      the one-pass selection by both criteria. */
  lemma {:induction false} WithSupervisorInIsSelected(rows: seq<Demand>, number: string, selection: seq<string>)
    requires selection != []
    requires forall d :: d in rows ==> number == "" || d.number == number
    ensures WithSupervisorIn(rows, LowerAll(selection)) == Selected(rows, number, selection)
  {
    if rows != [] {
      var d := rows[0];
      var lowered := LowerAll(selection);
      assert Lower(d.supervisor) in lowered <==> Keeps(d, number, selection) by {
        if Lower(d.supervisor) in lowered {
          var i :| 0 <= i < |lowered| && lowered[i] == Lower(d.supervisor);
          LowerIdempotent(selection[i]);
          LowerIdempotent(d.supervisor);
        }
        if Keeps(d, number, selection) {
          var i :| 0 <= i < |selection| && Lower(selection[i]) == Lower(d.supervisor);
          assert lowered[i] == Lower(d.supervisor);
        }
      }
      WithSupervisorInIsSelected(rows[1..], number, selection);
    }
  }

  /** Applying the two masks one after the other is the same as the one-pass
      selection with both criteria: the filters compose with AND. */
  lemma FilterIsSelected(rows: seq<Demand>, number: string, selection: seq<string>)
    ensures Filter(rows, number, selection) == Selected(rows, number, selection)
  {
    var byNumber := if number != "" then WithNumber(rows, number) else rows;
    if number != "" {
      WithNumberIsSelected(rows, number);
    }
    assert byNumber == Selected(rows, number, []);
    if selection != [] {
      WithSupervisorInIsSelected(byNumber, number, selection);
      SelectedTwice(rows, number, [], number, selection);
    }
  }

  /** Selecting with criteria (n1, s1) and then (n2, s2) is selecting with
      both at once. */
  lemma {:induction false} SelectedTwice(rows: seq<Demand>, n1: string, s1: seq<string>, n2: string, s2: seq<string>)
    requires forall d :: Keeps(d, n2, s2) ==> Keeps(d, n1, s1)
    ensures Selected(Selected(rows, n1, s1), n2, s2) == Selected(rows, n2, s2)
  {
    if rows != [] {
      SelectedTwice(rows[1..], n1, s1, n2, s2);
    }
  }

  /** The filter result is an order-preserving subsequence of the table; a
      row is in it exactly when it is in the table and passes both criteria,
      and it keeps all its copies. */
  lemma FilterSpec(rows: seq<Demand>, number: string, selection: seq<string>)
    ensures IsSubsequence(Filter(rows, number, selection), rows)
    ensures forall d :: d in Filter(rows, number, selection) <==> d in rows && Keeps(d, number, selection)
    ensures forall d :: multiset(Filter(rows, number, selection))[d]
                        == if Keeps(d, number, selection) then multiset(rows)[d] else 0
  {
    FilterIsSelected(rows, number, selection);
  }

  /** With no number and no supervisor selected, every row stays. */
  lemma FilterWithoutCriteria(rows: seq<Demand>)
    ensures Filter(rows, "", []) == rows
  {
  }

  /** Filtering an already filtered table with the same criteria changes
      nothing. */
  lemma FilterIdempotent(rows: seq<Demand>, number: string, selection: seq<string>)
    ensures Filter(Filter(rows, number, selection), number, selection) == Filter(rows, number, selection)
  {
    FilterIsSelected(rows, number, selection);
    FilterIsSelected(Filter(rows, number, selection), number, selection);
    SelectedTwice(rows, number, selection, number, selection);
  }

  /** Selecting "ana" keeps the rows of "Ana" and "ana" and drops "BRUNO". */
  lemma SupervisorMatchIgnoresCase()
    ensures var rows := [Demand("1", "Ana", "Obras", "BAURU"),
                         Demand("2", "ana", "Obras", "LINS"),
                         Demand("3", "BRUNO", "Obras", "BAURU")];
            Filter(rows, "", ["ana"]) == rows[..2]
  {
    var rows := [Demand("1", "Ana", "Obras", "BAURU"),
                 Demand("2", "ana", "Obras", "LINS"),
                 Demand("3", "BRUNO", "Obras", "BAURU")];
    assert Lower("Ana") == "ana";
    assert Lower("BRUNO") == "bruno";
    assert Lower("ana") == "ana";
  }
}
