/** The sidebar list of other users who are online, most recently seen first. */
module UserList {
  import opened ChatTypes
  import opened Seqs

  /** Whether an entry of the users object is listed for viewer `me`. */
  function Listed(me: string): ((string, User)) -> bool {
    (e: (string, User)) => e.1.status == Online && e.0 != me
  }

  /** Sort key for `(a, b) => b.lastSeen - a.lastSeen`: larger `lastSeen` first. */
  function NewestFirst(e: (string, User)): int {
    -e.1.lastSeen
  }

  function OnlineOthers(users: Record<User>, me: string): (r: Record<User>)
    ensures forall i :: 0 <= i < |r| ==> r[i].1.status == Online && r[i].0 != me
    ensures forall i :: 0 <= i < |r| ==> r[i] in users
    ensures forall i :: 0 <= i < |users| && users[i].1.status == Online && users[i].0 != me
              ==> users[i] in r
    ensures multiset(r) == multiset(Filter(users, Listed(me)))
    ensures forall i, j :: 0 <= i < j < |r| ==> r[i].1.lastSeen >= r[j].1.lastSeen
  {
    var f := Filter(users, Listed(me));
    var r := SortBy(f, NewestFirst);
    SameMembers(r, f);
    r
  }

  /** The listed entries are exactly the stable sort of the filtered entries:
      users seen at the same instant keep their order in the users object. */
  lemma {:induction false} OnlineOthersIsStableSort(users: Record<User>, me: string)
    ensures IsStableSortOf(OnlineOthers(users, me), Filter(users, Listed(me)), NewestFirst)
  {
    SortByIsStable(Filter(users, Listed(me)), NewestFirst);
  }

  /** One row per listed user, with the "typing..." marker. */
  datatype Row = Row(name: string, typing: bool)

  datatype View = NoOtherUsers | Rows(rows: seq<Row>)

  function Render(users: Record<User>, me: string): (v: View)
    ensures v.NoOtherUsers? <==> OnlineOthers(users, me) == []
    ensures v.Rows? ==> |v.rows| == |OnlineOthers(users, me)|
    ensures v.Rows? ==> forall i :: 0 <= i < |v.rows| ==>
              var e := OnlineOthers(users, me)[i];
              v.rows[i].name == e.0 && (v.rows[i].typing <==> e.1.isTyping)
  {
    var listed := OnlineOthers(users, me);
    if listed == [] then NoOtherUsers
    else Rows(seq(|listed|, i requires 0 <= i < |listed| => Row(listed[i].0, listed[i].1.isTyping)))
  }

  /** The viewer's own row never appears, even when the viewer is online. */
  lemma {:induction false} ViewerNeverListed(users: Record<User>, me: string)
    ensures Render(users, me).Rows? ==> forall i :: 0 <= i < |Render(users, me).rows| ==>
              Render(users, me).rows[i].name != me
  {
  }

  /** Someone else who is online is never missing from the list. */
  lemma {:induction false} OnlineOtherIsListed(users: Record<User>, me: string, i: int)
    requires 0 <= i < |users| && users[i].1.status == Online && users[i].0 != me
    ensures Render(users, me).Rows?
    ensures exists j :: 0 <= j < |Render(users, me).rows| && Render(users, me).rows[j].name == users[i].0
  {
    var listed := OnlineOthers(users, me);
    assert users[i] in listed;
    var j :| 0 <= j < |listed| && listed[j] == users[i];
    assert Render(users, me).rows[j].name == users[i].0;
  }
}
