/** The code graph's two tables (code_graph_io/schema.py): nodes by row id, and
    edges keyed by source, destination and kind. */
module Tables {
  import opened Paths

  /** A JSON attribute value, as far as the code modelled here tells them apart;
      `Texts` is a sorted list of distinct texts. */
  datatype Json = Null | Bool(b: bool) | Number(n: int) | Text(text: string) | Texts(items: set<string>)

  type AttrMap = map<string, Json>

  /** The `attrs_json` column; null when there are no attributes. */
  type Attrs = Option<AttrMap>

  datatype Row = Row(
    kind: string, name: string, path: Option<string>, line: Option<int>,
    attrs: Attrs, uri: Option<string>, repo: Option<string>)

  datatype EdgeKey = EdgeKey(src: nat, dst: nat, kind: string)

  datatype Tables = Tables(nodes: map<nat, Row>, edges: map<EdgeKey, Attrs>) {
    /** Foreign keys: both ends of every edge are rows. */
    predicate Sound() {
      forall e | e in edges :: e.src in nodes && e.dst in nodes
    }
  }

  predicate IsLeast(ids: set<nat>, m: nat) {
    m in ids && forall i | i in ids :: m <= i
  }

  predicate IsGreatest(ids: set<nat>, m: nat) {
    m in ids && forall i | i in ids :: i <= m
  }

  /** A nonempty set of row ids has a least and a greatest member. */
  lemma {:induction false} BoundsExist(ids: set<nat>) returns (least: nat, greatest: nat)
    requires ids != {}
    ensures IsLeast(ids, least) && IsGreatest(ids, greatest)
  {
    var x :| x in ids;
    var rest := ids - {x};
    assert forall i | i in ids :: i == x || i in rest;
    if rest == {} {
      least, greatest := x, x;
    } else {
      least, greatest := BoundsExist(rest);
      if x < least { least := x; }
      if x > greatest { greatest := x; }
    }
  }

  lemma OneLeast(ids: set<nat>)
    requires ids != {}
    ensures exists m :: IsLeast(ids, m)
    ensures exists m :: IsGreatest(ids, m)
  {
    var _, _ := BoundsExist(ids);
  }

  /** The first row of an unordered lookup: the least id. */
  function Least(ids: set<nat>): (id: Option<nat>)
    ensures id == None <==> ids == {}
    ensures id.Some? ==> IsLeast(ids, id.value)
  {
    if ids == {} then None
    else
      OneLeast(ids);
      var m: nat :| IsLeast(ids, m);
      Some(m)
  }

  /** The row id SQLite gives the next inserted row: one above the largest. */
  function Fresh(ids: set<nat>): (id: nat)
    ensures id !in ids && forall i | i in ids :: i < id
  {
    if ids == {} then 1
    else
      OneLeast(ids);
      var m: nat :| IsGreatest(ids, m);
      m + 1
  }
}
