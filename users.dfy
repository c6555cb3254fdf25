/**
 * `populateUserFilter`: the user drop-down lists each trimmed, non-blank
 * `UserRef` of the sales once, in ascending order.
 */
module Users {
  import opened Text
  import opened Records
  import opened Sorting

  /** `s` is a user some sale names. */
  ghost predicate Named(sales: seq<Sale>, u: string) {
    exists j :: 0 <= j < |sales| && Trim(sales[j].userRef) != "" && u == Trim(sales[j].userRef)
  }

  /** The users as the drop-down lists them: a `Set` filled by a `forEach`
      over the sales, then `Array.from(...).sort()`. */
  method UniqueUsers(sales: seq<Sale>) returns (users: seq<string>)
    ensures forall u :: u in users <==> Named(sales, u)
    ensures forall i, j :: 0 <= i < j < |users| ==> Below(users[i], users[j]) && users[i] != users[j]
  {
    var seen: seq<string> := [];
    var i := 0;
    while i < |sales|
      invariant 0 <= i <= |sales|
      invariant NoDuplicates(seen)
      invariant forall u :: u in seen <==> Named(sales[..i], u)
    {
      var u := Trim(sales[i].userRef);
      forall v ensures Named(sales[..i + 1], v) <==> Named(sales[..i], v) || (u != "" && v == u) {
        if Named(sales[..i + 1], v) {
          var j :| 0 <= j < i + 1 && Trim(sales[..i + 1][j].userRef) != "" && v == Trim(sales[..i + 1][j].userRef);
          if j < i {
            assert sales[..i][j] == sales[j];
          }
        }
        if Named(sales[..i], v) {
          var j :| 0 <= j < i && Trim(sales[..i][j].userRef) != "" && v == Trim(sales[..i][j].userRef);
          assert sales[..i + 1][j] == sales[j];
        }
        if u != "" && v == u {
          assert sales[..i + 1][i] == sales[i];
        }
      }
      if u != "" && u !in seen {
        seen := seen + [u];
      }
      i := i + 1;
    }
    assert sales[..i] == sales;
    users := SortBy(seen, s => s);
    SortBySorted(seen, s => s);
    SortByPermutes(seen, s => s);
    NoDuplicatesPermuted(seen, users);
    forall u ensures u in users <==> u in seen {
      assert u in users <==> u in multiset(users);
    }
  }
}
