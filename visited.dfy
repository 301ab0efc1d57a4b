/**
 * The visited set: stop ids in insertion order without duplicates, as a
 * JavaScript `Set` keeps them, and its round trip through storage
 * (`loadVisitedSet`, `saveVisitedSet`).
 */
module Visited {
  import opened Values
  import opened Storage

  predicate NoDups(s: seq<string>) {
    forall i, j :: 0 <= i < j < |s| ==> s[i] != s[j]
  }

  /** `set.add(x)`: appended at the end unless it is already a member. */
  function Add(s: seq<string>, x: string): (r: seq<string>)
    ensures forall y :: y in r <==> y in s || y == x
    ensures x in s ==> r == s
    ensures x !in s ==> r == s + [x]
    ensures NoDups(s) ==> NoDups(r)
  {
    if x in s then s else s + [x]
  }

  /** `set.delete(x)`: the other members keep their order. */
  function Delete(s: seq<string>, x: string): (r: seq<string>)
    ensures forall y :: y in r <==> y in s && y != x
    ensures NoDups(s) ==> NoDups(r)
    ensures x !in s ==> r == s
  {
    if s == [] then []
    else if s[0] == x then Delete(s[1..], x)
    else
      var rest := Delete(s[1..], x);
      assert NoDups(s) ==> s[0] !in s[1..];
      [s[0]] + rest
  }

  /** Deleting a member of a duplicate-free set cuts it out at its position: the others keep their order. */
  lemma DeleteKeepsOrder(s: seq<string>, x: string)
    requires NoDups(s) && x in s
    ensures exists i :: 0 <= i < |s| && s[i] == x && Delete(s, x) == s[..i] + s[i + 1..]
  {
    var i :| 0 <= i < |s| && s[i] == x;
    forall j | 0 <= j < |s| && j != i ensures s[j] != x {
      if j < i { assert s[j] != s[i]; } else { assert s[i] != s[j]; }
    }
    DeleteAt(s, x, i);
  }

  lemma {:induction false} DeleteAt(s: seq<string>, x: string, i: nat)
    requires i < |s| && s[i] == x
    requires forall j :: 0 <= j < |s| && j != i ==> s[j] != x
    ensures Delete(s, x) == s[..i] + s[i + 1..]
  {
    var t := s[1..];
    if i == 0 {
      assert x !in t by {
        forall k | 0 <= k < |t| ensures t[k] != x {
          assert t[k] == s[k + 1];
        }
      }
      assert Delete(s, x) == Delete(t, x);
      assert s[..0] + s[1..] == t;
    } else {
      assert s[0] != x;
      assert Delete(s, x) == [s[0]] + Delete(t, x);
      forall k | 0 <= k < |t| && k != i - 1 ensures t[k] != x {
        assert t[k] == s[k + 1];
      }
      DeleteAt(t, x, i - 1);
      assert s[..i] == [s[0]] + t[..i - 1];
      assert s[i + 1..] == t[i..];
    }
  }

  /** The click on a card's button: the id leaves the set if it was in it and joins it otherwise. */
  function Toggle(s: seq<string>, x: string): (r: seq<string>)
    ensures x in r <==> x !in s
    ensures forall y :: y != x ==> (y in r <==> y in s)
    ensures NoDups(s) ==> NoDups(r)
  {
    if x in s then Delete(s, x) else Add(s, x)
  }

  /** Toggling twice restores membership; when the id was not a member, it restores the very same sequence. */
  lemma ToggleTwice(s: seq<string>, x: string)
    requires NoDups(s)
    ensures forall y :: y in Toggle(Toggle(s, x), x) <==> y in s
    ensures x !in s ==> Toggle(Toggle(s, x), x) == s
  {
    if x !in s {
      DeleteLast(s, x);
    }
  }

  lemma {:induction false} DeleteLast(s: seq<string>, x: string)
    requires x !in s
    ensures Delete(s + [x], x) == s
  {
    if s != [] {
      assert (s + [x])[1..] == s[1..] + [x];
      DeleteLast(s[1..], x);
    } else {
      assert Delete([x][1..], x) == [];
    }
  }

  /** `new Set(arr)`: the elements added one after the other. */
  function AddAll(acc: seq<string>, rest: seq<string>): (r: seq<string>)
    ensures NoDups(acc) ==> NoDups(r)
    ensures forall y :: y in r <==> y in acc || y in rest
    decreases |rest|
  {
    if rest == [] then acc else AddAll(Add(acc, rest[0]), rest[1..])
  }

  /**
   * `loadVisitedSet`: fails soft to the empty set when the key is missing,
   * empty, unparseable or not an array.
   */
  function LoadVisited(entry: Option<Stored>): (r: seq<string>)
    ensures NoDups(r)
    ensures entry.Some? && entry.value.IdArray? ==> forall y :: y in r <==> y in entry.value.ids
    ensures !(entry.Some? && entry.value.IdArray?) ==> r == []
  {
    match entry
    case Some(IdArray(ids)) => AddAll([], ids)
    case _ => []
  }

  /** `saveVisitedSet`: the members as a JSON array, in insertion order. */
  function SaveVisited(s: seq<string>): Stored {
    IdArray(s)
  }

  lemma {:induction false} AddAllDistinct(acc: seq<string>, rest: seq<string>)
    requires NoDups(acc + rest)
    ensures AddAll(acc, rest) == acc + rest
    decreases |rest|
  {
    if rest != [] {
      assert rest[0] !in acc by {
        var all := acc + rest;
        assert all[|acc|] == rest[0];
        forall i | 0 <= i < |acc| ensures acc[i] != rest[0] {
          assert all[i] == acc[i];
        }
      }
      assert acc + [rest[0]] + rest[1..] == acc + rest;
      AddAllDistinct(acc + [rest[0]], rest[1..]);
    }
  }

  /** Loading right after saving gives back the same members in the same order. */
  lemma LoadAfterSave(s: seq<string>)
    requires NoDups(s)
    ensures LoadVisited(Some(SaveVisited(s))) == s
  {
    AddAllDistinct([], s);
  }

  /** Saving what was loaded and loading again changes nothing, whatever was stored. */
  lemma SaveOfLoadIsStable(entry: Option<Stored>)
    ensures LoadVisited(Some(SaveVisited(LoadVisited(entry)))) == LoadVisited(entry)
  {
    LoadAfterSave(LoadVisited(entry));
  }
}
