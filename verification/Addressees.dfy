/** Lists that give each named user something, such as a wrapped key; of several entries for a user the last counts. */
module Addressees {

  datatype Addressed<+V> = Addressed(userId: string, payload: V)

  predicate Names<V>(list: seq<Addressed<V>>, user: string) {
    exists i :: 0 <= i < |list| && list[i].userId == user
  }

  function LastPayload<V>(list: seq<Addressed<V>>, user: string): V
    requires Names(list, user)
  {
    if list[|list| - 1].userId == user then list[|list| - 1].payload
    else
      NamesLast(list, user);
      LastPayload(list[..|list| - 1], user)
  }

  lemma NamesLast<V>(list: seq<Addressed<V>>, user: string)
    requires list != []
    ensures var n := |list| - 1; Names(list, user) <==> list[n].userId == user || Names(list[..n], user)
  {
    var n := |list| - 1;
    if i :| 0 <= i < |list| && list[i].userId == user && i != n {
      assert list[..n][i].userId == user;
    }
    if i :| 0 <= i < n && list[..n][i].userId == user {
      assert list[i].userId == user;
    }
  }
}
