/** Shareholder records as the page receives them from the query endpoint,
    and the lookups the page performs on them. */
module Rows {

  /** A nullable value: `null`/`undefined` in the page become `None`. */
  datatype Option<+T> = None | Some(value: T)

  /** One record of the `major_shareholders` table: the reporting period,
      the category code (1..35 a shareholder rank, 50..61 an aggregate),
      the English name, the share count and the percentage (display only). */
  datatype Row = Row(term: string, dataId: int, nameEn: Option<string>,
                     shares: Option<int>, pct: Option<real>)

  /** Category code of the "Shares Issued" aggregate. */
  const IssuedId: int := 52
  /** Category code of the "Major Shareholders" aggregate. */
  const MajorId: int := 54

  /** JavaScript truthiness of a nullable share count: present and non-zero. */
  predicate Truthy(v: Option<int>) {
    v.Some? && v.value != 0
  }

  /** JavaScript truthiness of `row.name_en`: present and not the empty string. */
  predicate Named(r: Row) {
    r.nameEn.Some? && |r.nameEn.value| > 0
  }

  /** `index` is the first position of `group` holding code `id`. */
  ghost predicate IsFirst(group: seq<Row>, id: int, index: int) {
    && 0 <= index < |group|
    && group[index].dataId == id
    && forall j :: 0 <= j < index ==> group[j].dataId != id
  }

  /** `group.find(r => r.data_id === id)`: the first row carrying code `id`,
      or `None` when no row does. */
  function Find(group: seq<Row>, id: int): (r: Option<Row>)
    ensures r.None? <==> forall k :: 0 <= k < |group| ==> group[k].dataId != id
    ensures r.Some? ==> exists k :: IsFirst(group, id, k) && group[k] == r.value
    ensures forall k :: IsFirst(group, id, k) ==> r == Some(group[k])
  {
    if |group| == 0 then None
    else if group[0].dataId == id then
      assert IsFirst(group, id, 0);
      Some(group[0])
    else
      var r := Find(group[1..], id);
      assert r.Some? ==> exists k :: IsFirst(group, id, k) && group[k] == r.value by {
        if r.Some? {
          var k :| IsFirst(group[1..], id, k) && group[1..][k] == r.value;
          assert IsFirst(group, id, k + 1);
        }
      }
      assert forall k :: IsFirst(group, id, k) ==> IsFirst(group[1..], id, k - 1);
      r
  }

  /** `group.find(r => r.data_id === id)?.shares ?? null`: the share count
      of the first row carrying code `id`, null when there is none. */
  function SharesOf(group: seq<Row>, id: int): (v: Option<int>)
    ensures forall k :: IsFirst(group, id, k) ==> v == group[k].shares
    ensures (forall k :: 0 <= k < |group| ==> group[k].dataId != id) ==> v.None?
  {
    match Find(group, id)
    case Some(r) => r.shares
    case None => None
  }
}
