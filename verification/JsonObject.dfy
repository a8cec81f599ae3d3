/**
  The insertion-ordered members of AK/JsonObject.h: a vector of keys beside a
  hash map, refining the member list that the printer and the parser use.
*/
module JsonObject {
  import opened JsonText

  /** The list that an order and a map stand for. */
  ghost function Listed(order: seq<Text>, members: map<Text, Json>): seq<Member>
    requires Ordered(order, members)
  {
    seq(|order|, i requires 0 <= i < |order| => Member(order[i], members[order[i]]))
  }

  lemma {:induction false} DropFirst(list: seq<Member>, key: Text, i: nat)
    requires i < |list| && list[i].key == key
    requires forall j :: 0 <= j < i ==> list[j].key != key
    ensures WithoutKey(list, key) == list[..i] + list[i + 1..]
  {
    if i != 0 {
      DropFirst(list[1..], key, i - 1);
      assert list[..i] == [list[0]] + list[1..][..i - 1];
      assert list[i + 1..] == list[1..][i..];
    }
  }

  lemma {:induction false} NothingToDrop(list: seq<Member>, key: Text)
    requires forall j :: 0 <= j < |list| ==> list[j].key != key
    ensures WithoutKey(list, key) == list
  {
    if list != [] {
      NothingToDrop(list[1..], key);
      assert list == [list[0]] + list[1..];
    }
  }

  ghost predicate Ordered(order: seq<Text>, members: map<Text, Json>) {
    && (forall i :: 0 <= i < |order| ==> order[i] in members)
    && (forall key :: key in members ==> key in order)
    && (forall i, j :: 0 <= i < j < |order| ==> order[i] != order[j])
  }

  lemma DropOrdered(order: seq<Text>, members: map<Text, Json>, key: Text, i: nat)
    requires Ordered(order, members) && i < |order| && order[i] == key
    ensures Ordered(order[..i] + order[i + 1..], members - {key})
  {
    var rest := order[..i] + order[i + 1..];
    forall x | x in members && x != key
      ensures x in rest
    {
      assert x in order;
      StillThere(order, i, x);
    }
  }

  lemma StillThere<T>(s: seq<T>, i: nat, x: T)
    requires i < |s| && x in s && x != s[i]
    ensures x in s[..i] + s[i + 1..]
  {
    var j :| 0 <= j < |s| && s[j] == x;
    var rest := s[..i] + s[i + 1..];
    assert if j < i then rest[j] == x else rest[j - 1] == x;
  }

  lemma DistinctOrder(order: seq<Text>, members: map<Text, Json>, i: nat)
    requires Ordered(order, members) && i < |order|
    ensures forall j :: 0 <= j < i ==> order[j] != order[i]
  {
  }

  lemma DropListed(order: seq<Text>, members: map<Text, Json>, key: Text, i: nat)
    requires Ordered(order, members) && i < |order| && order[i] == key
    requires Ordered(order[..i] + order[i + 1..], members - {key})
    ensures Listed(order[..i] + order[i + 1..], members - {key}) == WithoutKey(Listed(order, members), key)
  {
    hide WithoutKey;
    var list := Listed(order, members);
    DistinctOrder(order, members, i);
    DropFirst(list, key, i);
    ListedSame(order[..i] + order[i + 1..], members - {key}, list[..i] + list[i + 1..]);
  }

  lemma ListedSame(order: seq<Text>, members: map<Text, Json>, list: seq<Member>)
    requires Ordered(order, members) && |list| == |order|
    requires forall j :: 0 <= j < |order| ==> list[j] == Member(order[j], members[order[j]])
    ensures Listed(order, members) == list
  {
  }

  lemma NothingListed(order: seq<Text>, members: map<Text, Json>, key: Text)
    requires Ordered(order, members) && key !in members
    ensures WithoutKey(Listed(order, members), key) == Listed(order, members)
  {
    NothingToDrop(Listed(order, members), key);
  }

  lemma InOrder(order: seq<Text>, members: map<Text, Json>, key: Text)
    requires Ordered(order, members) && key in members
    ensures key in order
  {
  }

  lemma AppendKey(order: seq<Text>, members: map<Text, Json>, key: Text, value: Json)
    requires Ordered(order, members) && key !in members
    ensures Ordered(order + [key], members[key := value])
    ensures Listed(order + [key], members[key := value]) == Listed(order, members) + [Member(key, value)]
  {
  }

  class JsonObject {
    var order: seq<Text>
    var members: map<Text, Json>

    ghost predicate Valid()
      reads this
    {
      Ordered(order, members)
    }

    ghost function Contents(): seq<Member>
      requires Valid()
      reads this
    {
      Listed(order, members)
    }

    constructor ()
      ensures Valid() && Contents() == []
    {
      order, members := [], map[];
    }

    method FirstIndex(key: Text) returns (i: nat)
      requires key in order
      ensures i < |order| && order[i] == key && key !in order[..i]
    {
      i := 0;
      while order[i] != key
        invariant i < |order| && key !in order[..i] && key in order[i..]
        decreases |order| - i
      {
        i := i + 1;
      }
    }

    /** Takes the first place of the key out of the insertion order. */
    method RemoveFromOrder(key: Text)
      requires key in order
      modifies this`order
      ensures exists i: nat :: i < |old(order)| && old(order)[i] == key && order == old(order)[..i] + old(order)[i + 1..]
    {
      var i := FirstIndex(key);
      order := order[..i] + order[i + 1..];
    }

    method Set(key: Text, value: Json)
      requires Valid()
      modifies this
      ensures Valid() && Contents() == JsonText.Set(old(Contents()), key, value)
      ensures members == old(members)[key := value]
    {
      hide Ordered, Listed, WithoutKey;
      ghost var order0, members0 := order, members;
      var replaced := key in members;
      members := members[key := value];
      if replaced {
        InOrder(order0, members0, key);
        RemoveFromOrder(key);
        ghost var i: nat :| i < |order0| && order0[i] == key && order == order0[..i] + order0[i + 1..];
        DropOrdered(order0, members0, key, i);
        DropListed(order0, members0, key, i);
        AppendKey(order, members0 - {key}, key, value);
        assert (members0 - {key})[key := value] == members;
      } else {
        NothingListed(order0, members0, key);
        AppendKey(order, members0, key, value);
      }
      order := order + [key];
    }

    method Remove(key: Text) returns (removed: bool)
      requires Valid()
      modifies this
      ensures Valid() && Contents() == WithoutKey(old(Contents()), key)
      ensures members == old(members) - {key} && (removed <==> key in old(members))
    {
      hide Ordered, Listed, WithoutKey;
      ghost var order0, members0 := order, members;
      if key in members {
        members := members - {key};
        InOrder(order0, members0, key);
        RemoveFromOrder(key);
        ghost var i: nat :| i < |order0| && order0[i] == key && order == order0[..i] + order0[i + 1..];
        DropOrdered(order0, members0, key, i);
        DropListed(order0, members0, key, i);
        return true;
      }
      NothingListed(order0, members0, key);
      assert members0 - {key} == members0;
      return false;
    }

    /** for_each_member with a callback that collects what it is given. */
    method ForEachMember() returns (seen: seq<Member>)
      requires Valid()
      ensures seen == Contents()
    {
      seen := [];
      for i := 0 to |order|
        invariant seen == Contents()[..i]
      {
        seen := seen + [Member(order[i], members[order[i]])];
      }
    }
  }

  /** Setting a key twice keeps the later value only, at the end. */
  lemma {:induction false} SetTwice(list: seq<Member>, key: Text, v: Json, w: Json)
    requires forall i, j :: 0 <= i < j < |list| ==> list[i].key != list[j].key
    ensures Set(Set(list, key, v), key, w) == Set(list, key, w)
  {
    if list == [] {
    } else if list[0].key == key {
      NothingToDrop(list[1..], key);
      DropLast(list[1..], Member(key, v));
    } else {
      var rest := Set(list[1..], key, v);
      SetTwice(list[1..], key, v, w);
      assert Set(list, key, v) == [list[0]] + rest;
      assert ([list[0]] + rest)[1..] == rest;
      assert WithoutKey([list[0]] + rest, key) == [list[0]] + WithoutKey(rest, key);
      assert Set(list, key, w) == [list[0]] + Set(list[1..], key, w);
    }
  }

  lemma DropLast(list: seq<Member>, last: Member)
    requires forall j :: 0 <= j < |list| ==> list[j].key != last.key
    ensures WithoutKey(list + [last], last.key) == list
  {
    DropFirst(list + [last], last.key, |list|);
  }
}
