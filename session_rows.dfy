/**
 * The topic rows of a council Session ("Session Topic Assignment" child records)
 * and the comparison of a session's rows with those of its previously saved
 * revision (`Session.detect_assignments_changes`).
 */
module SessionRows {
  import opened Wrappers

  /** One child row of a session. `name` is the row's key, `isNew` says the row
      has not been saved yet, and `modified` is its last-modification timestamp. */
  datatype SessionTopicAssignment = SessionTopicAssignment(
    name: string,
    isNew: bool,
    modified: nat,
    topicAssignment: string,
    forwardAssignment: string,
    decision: string,
    decisionType: string,
    title: string,
    description: string,
    council: string,
    topic: string)

  type Row = SessionTopicAssignment

  /** The three lists that change detection returns. */
  datatype Changes = Changes(edited: seq<Row>, added: seq<Row>, deleted: seq<Row>)

  function Names(rows: seq<Row>): set<string>
  {
    set r | r in rows :: r.name
  }

  predicate UniqueNames(rows: seq<Row>)
  {
    forall i, j :: 0 <= i < j < |rows| ==> rows[i].name != rows[j].name
  }

  /** The dictionary `{row.name: row for row in rows}`: a later row with the
      same name replaces an earlier one. */
  function ByName(rows: seq<Row>): (m: map<string, Row>)
    ensures m.Keys == Names(rows)
    ensures forall k :: k in m ==> m[k] in rows && m[k].name == k
  {
    if rows == [] then map[]
    else
      var last := rows[|rows| - 1];
      ByName(rows[..|rows| - 1])[last.name := last]
  }

  /** The keys of that dictionary in iteration order: each name where it first
      occurs. */
  function KeyOrder(rows: seq<Row>): (ks: seq<string>)
    ensures forall k :: k in ks <==> k in Names(rows)
    ensures forall i, j :: 0 <= i < j < |ks| ==> ks[i] != ks[j]
  {
    if rows == [] then []
    else
      var ks := KeyOrder(rows[..|rows| - 1]);
      var k := rows[|rows| - 1].name;
      if k in ks then ks else ks + [k]
  }

  /** The values of the dictionary `m` for the keys `ks`, in that order. */
  function ValuesAt(ks: seq<string>, m: map<string, Row>): seq<Row>
    requires forall k :: k in ks ==> k in m
  {
    seq(|ks|, i requires 0 <= i < |ks| => m[ks[i]])
  }

  /** The values of `dict.items()` in iteration order. */
  function Items(rows: seq<Row>): seq<Row>
  {
    ValuesAt(KeyOrder(rows), ByName(rows))
  }

  /** The dictionary's values are exactly the rows that are the last of their name. */
  lemma ItemsAreLastRows(rows: seq<Row>)
    ensures forall x :: x in Items(rows) <==> x in rows && ByName(rows)[x.name] == x
  {
    var ks, m := KeyOrder(rows), ByName(rows);
    forall x | x in rows && m[x.name] == x ensures x in Items(rows) {
      var i :| 0 <= i < |ks| && ks[i] == x.name;
      assert Items(rows)[i] == x;
    }
  }

  /** The conditions the three comprehensions of the change detection test,
      written as data so that two selections can be compared for equality. */
  datatype Selector =
    | FlaggedNew
    | NameNotIn(names: set<string>)
    | EditedSince(previous: map<string, Row>)

  predicate Selects(s: Selector, r: Row)
  {
    match s
    case FlaggedNew => r.isNew
    case NameNotIn(names) => r.name !in names
    case EditedSince(previous) =>
      r.name in previous && !r.isNew && previous[r.name].modified != r.modified
  }

  /** `[r for r in rows if <s holds of r>]`. */
  function Select(rows: seq<Row>, s: Selector): (r: seq<Row>)
    ensures |r| <= |rows|
    ensures forall x :: x in r <==> x in rows && Selects(s, x)
  {
    if rows == [] then []
    else
      var r0 := Select(rows[..|rows| - 1], s);
      var last := rows[|rows| - 1];
      assert rows == rows[..|rows| - 1] + [last];
      if Selects(s, last) then r0 + [last] else r0
  }

  /** The positions in `rows` of the rows that `s` selects, in increasing order. */
  function SelectedPositions(rows: seq<Row>, s: Selector): (ps: seq<nat>)
    ensures forall k :: 0 <= k < |ps| ==> ps[k] < |rows| && Selects(s, rows[ps[k]])
    ensures forall k, l :: 0 <= k < l < |ps| ==> ps[k] < ps[l]
    ensures forall i :: 0 <= i < |rows| && Selects(s, rows[i]) ==> i in ps
  {
    if rows == [] then []
    else
      var ps := SelectedPositions(rows[..|rows| - 1], s);
      if Selects(s, rows[|rows| - 1]) then ps + [|rows| - 1] else ps
  }

  /** A selection keeps the rows it selects in their original order: its k-th
      element is the row at the k-th selected position. */
  lemma {:induction false} SelectKeepsOrder(rows: seq<Row>, s: Selector)
    ensures |Select(rows, s)| == |SelectedPositions(rows, s)|
    ensures forall k :: 0 <= k < |Select(rows, s)| ==>
      Select(rows, s)[k] == rows[SelectedPositions(rows, s)[k]]
  {
    if rows != [] {
      var front := rows[..|rows| - 1];
      SelectKeepsOrder(front, s);
      var r0, ps0 := Select(front, s), SelectedPositions(front, s);
      var r, ps := Select(rows, s), SelectedPositions(rows, s);
      forall k | 0 <= k < |r0| ensures r[k] == rows[ps[k]] {
        assert r[k] == r0[k] && ps[k] == ps0[k];
        assert front[ps0[k]] == rows[ps0[k]];
      }
    }
  }

  /** `detect_assignments_changes`: `None` for a session that was never saved;
      otherwise the edited, added and deleted rows. The previous revision must
      exist once the session has been saved (the source dereferences it). */
  function DetectChanges(isNew: bool, current: seq<Row>, before: Option<seq<Row>>): (r: Option<Changes>)
    requires isNew || before.Some?
    ensures isNew <==> r.None?
  {
    if isNew then None
    else
      var previous := before.value;
      Some(Changes(
        Select(Items(current), EditedSince(ByName(previous))),
        Select(current, FlaggedNew),
        Select(previous, NameNotIn(Names(current)))))
  }

  /** Which rows each list holds. Deleted: the previous rows whose name no
      current row has. Added: the current rows flagged new. Edited: the current
      rows (the last of their name) that are not new, exist in the previous
      revision and carry another timestamp there. No row is both added and edited. */
  lemma ChangesMembership(current: seq<Row>, previous: seq<Row>)
    ensures var c := DetectChanges(false, current, Some(previous)).value;
      && (forall x :: x in c.deleted <==> x in previous && x.name !in Names(current))
      && (forall x :: x in c.added <==> x in current && x.isNew)
      && (forall x :: x in c.edited <==>
            && x in current
            && ByName(current)[x.name] == x
            && !x.isNew
            && x.name in Names(previous)
            && ByName(previous)[x.name].modified != x.modified)
      && (forall x :: !(x in c.edited && x in c.added))
  {
    ItemsAreLastRows(current);
  }

  /** With unique row names (what the record store guarantees) the dictionary
      of the current rows iterates over exactly those rows in their order. */
  lemma ItemsOfUniqueNames(rows: seq<Row>)
    requires UniqueNames(rows)
    ensures KeyOrder(rows) == seq(|rows|, i requires 0 <= i < |rows| => rows[i].name)
    ensures Items(rows) == rows
  {
    KeyOrderOfUniqueNames(rows);
    ByNameOfUniqueNames(rows);
  }

  /** With unique row names every row adds its own key, in order. */
  lemma {:induction false} KeyOrderOfUniqueNames(rows: seq<Row>)
    requires UniqueNames(rows)
    ensures |KeyOrder(rows)| == |rows|
    ensures forall i :: 0 <= i < |rows| ==> KeyOrder(rows)[i] == rows[i].name
  {
    if rows != [] {
      var front, last := rows[..|rows| - 1], rows[|rows| - 1];
      KeyOrderOfUniqueNames(front);
      assert last.name !in Names(front) by {
        forall r | r in front ensures r.name != last.name {
          var i :| 0 <= i < |front| && front[i] == r;
          assert rows[i] == r;
        }
      }
    }
  }

  lemma {:induction false} ByNameOfUniqueNames(rows: seq<Row>)
    requires UniqueNames(rows)
    ensures forall i :: 0 <= i < |rows| ==> ByName(rows)[rows[i].name] == rows[i]
  {
    if rows != [] {
      ByNameOfUniqueNames(rows[..|rows| - 1]);
    }
  }

  /** With unique row names the edited rows are the current rows that are not
      new, exist in the previous revision and carry another timestamp there, in
      current order. */
  lemma EditedInCurrentOrder(current: seq<Row>, previous: seq<Row>)
    requires UniqueNames(current)
    ensures DetectChanges(false, current, Some(previous)).value.edited
         == Select(current, EditedSince(ByName(previous)))
  {
    ItemsOfUniqueNames(current);
  }
}
