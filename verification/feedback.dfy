/** The feedback collection: its entries and the pure operations the route
    handlers apply to the collection once it has been read from the store. */
module Feedback {

  datatype Option<T> = None | Some(value: T)

  /** One stored piece of feedback. `votes` is an unbounded integer: voting
      has neither a floor nor a ceiling. */
  datatype Entry = Entry(id: string, name: string, email: string, message: string, votes: int)

  /** A request body field as JavaScript sees it: `None` when the field is
      absent (undefined or null). */
  type Field = Option<string>

  /** The truthiness test `!x` of the create handler: an absent field and the
      empty string are falsy, every other string is truthy. */
  function IsFalsy(f: Field): (falsy: bool)
    ensures falsy <==> f == None || f == Some("")
    ensures !falsy <==> f.Some? && |f.value| > 0
  {
    match f
    case None => true
    case Some(s) => s == ""
  }

  /** The create handler's guard: true when any of the three fields is falsy,
      so a request passes exactly when all three are present and non-empty. */
  function MissingField(name: Field, email: Field, message: Field): (missing: bool)
    ensures !missing <==> name.Some? && email.Some? && message.Some? &&
                          name.value != "" && email.value != "" && message.value != ""
  {
    IsFalsy(name) || IsFalsy(email) || IsFalsy(message)
  }

  /** The vote handler's guard: the direction must be exactly "up" or "down". */
  function ValidDirection(direction: Option<string>): (valid: bool)
    ensures valid <==> direction.Some? && (direction.value == "up" || direction.value == "down")
  {
    direction == Some("up") || direction == Some("down")
  }

  /** The change a valid direction makes to the vote count. */
  function Delta(direction: Option<string>): (d: int)
    requires ValidDirection(direction)
    ensures direction == Some("up") <==> d == 1
    ensures direction == Some("down") <==> d == -1
  {
    if direction == Some("up") then 1 else -1
  }

  /** Some entry of `s` carries identifier `id`. */
  ghost predicate HasId(s: seq<Entry>, id: string) {
    exists i :: 0 <= i < |s| && s[i].id == id
  }

  /** No two entries share an identifier. The server never checks this. */
  ghost predicate UniqueIds(s: seq<Entry>) {
    forall i, j :: 0 <= i < j < |s| ==> s[i].id != s[j].id
  }

  /** `Array.prototype.findIndex` with the predicate `item.id === id`: the
      position of the FIRST entry with that identifier, or -1 when there is
      none. */
  function FindIndex(s: seq<Entry>, id: string): (r: int)
    ensures -1 <= r < |s|
    ensures r == -1 <==> !HasId(s, id)
    ensures r != -1 ==> s[r].id == id
    ensures forall j :: 0 <= j < r ==> s[j].id != id
  {
    if |s| == 0 then -1
    else if s[0].id == id then 0
    else
      var k := FindIndex(s[1..], id);
      assert HasId(s, id) ==> HasId(s[1..], id) by {
        if HasId(s, id) {
          var i :| 0 <= i < |s| && s[i].id == id;
          assert s[1..][i - 1].id == id;
        }
      }
      if k == -1 then -1 else k + 1
  }

  /** `feedback.filter(item => item.id !== id)`: every entry whose identifier
      differs from `id`, in their original order. */
  function WithoutId(s: seq<Entry>, id: string): (r: seq<Entry>)
    ensures |r| <= |s|
    ensures forall e :: e in r <==> e in s && e.id != id
    ensures |r| == |s| <==> !HasId(s, id)
    ensures !HasId(s, id) ==> r == s
  {
    if |s| == 0 then []
    else
      var rest := WithoutId(s[1..], id);
      assert HasId(s, id) <==> s[0].id == id || HasId(s[1..], id) by {
        if HasId(s, id) && s[0].id != id {
          var i :| 0 <= i < |s| && s[i].id == id;
          assert s[1..][i - 1].id == id;
        }
        if HasId(s[1..], id) {
          var i :| 0 <= i < |s[1..]| && s[1..][i].id == id;
          assert s[i + 1].id == id;
        }
      }
      assert s == [s[0]] + s[1..];
      if s[0].id == id then rest else [s[0]] + rest
  }

  /** The collection after `feedback[k].votes += delta`: entry `k` gets
      `delta` more votes and nothing else changes. */
  function Voted(s: seq<Entry>, k: int, delta: int): (r: seq<Entry>)
    requires 0 <= k < |s|
    ensures |r| == |s|
    ensures r[k].votes == s[k].votes + delta
    ensures r[k].(votes := s[k].votes) == s[k]
    ensures forall j :: 0 <= j < |s| && j != k ==> r[j] == s[j]
  {
    s[k := s[k].(votes := s[k].votes + delta)]
  }

  /** Filtering distributes over concatenation: the entries that survive a
      delete keep their relative order. */
  lemma {:induction false} WithoutIdAppend(a: seq<Entry>, b: seq<Entry>, id: string)
    ensures WithoutId(a + b, id) == WithoutId(a, id) + WithoutId(b, id)
  {
    if |a| == 0 {
      assert a + b == b;
    } else {
      assert (a + b)[1..] == a[1..] + b;
      WithoutIdAppend(a[1..], b, id);
    }
  }

  /** After a delete no entry with the identifier is left, so deleting it a
      second time finds nothing and changes nothing. */
  lemma WithoutIdTwice(s: seq<Entry>, id: string)
    ensures !HasId(WithoutId(s, id), id)
    ensures WithoutId(WithoutId(s, id), id) == WithoutId(s, id)
  {
  }

  /** Filtering keeps identifiers unique. */
  lemma {:induction false} WithoutIdKeepsIdsUnique(s: seq<Entry>, id: string)
    requires UniqueIds(s)
    ensures UniqueIds(WithoutId(s, id))
  {
    if |s| > 0 {
      var rest := WithoutId(s[1..], id);
      assert UniqueIds(s[1..]) by {
        forall i, j | 0 <= i < j < |s[1..]| ensures s[1..][i].id != s[1..][j].id {
          assert s[1..][i] == s[i + 1] && s[1..][j] == s[j + 1];
        }
      }
      WithoutIdKeepsIdsUnique(s[1..], id);
      if s[0].id != id {
        forall j | 0 <= j < |rest| ensures rest[j].id != s[0].id {
          assert rest[j] in s[1..];
          var m :| 0 <= m < |s[1..]| && s[1..][m] == rest[j];
          assert s[m + 1] == rest[j];
        }
        assert WithoutId(s, id) == [s[0]] + rest;
      }
    }
  }

  /** When identifiers are unique, delete removes exactly the one entry that
      vote would find, and keeps the rest in order. */
  lemma UniqueDeleteRemovesOne(s: seq<Entry>, id: string)
    requires UniqueIds(s)
    requires HasId(s, id)
    ensures var k := FindIndex(s, id);
            WithoutId(s, id) == s[..k] + s[k + 1..] && |WithoutId(s, id)| == |s| - 1
  {
    var k := FindIndex(s, id);
    NoMatchAround(s, id, k);
    OnlyMatchRemoved(s, id, k);
  }

  /** When position k holds the only entry with the identifier, filtering
      cuts out exactly that position. */
  lemma OnlyMatchRemoved(s: seq<Entry>, id: string, k: int)
    requires 0 <= k < |s| && s[k].id == id
    requires !HasId(s[..k], id) && !HasId(s[k + 1..], id)
    ensures WithoutId(s, id) == s[..k] + s[k + 1..]
  {
    var before, after := s[..k], s[k + 1..];
    calc {
      WithoutId(s, id);
    == { assert s == before + ([s[k]] + after); }
      WithoutId(before + ([s[k]] + after), id);
    == { WithoutIdAppend(before, [s[k]] + after, id); }
      WithoutId(before, id) + WithoutId([s[k]] + after, id);
    == { WithoutIdAppend([s[k]], after, id); SingleMatchRemoved(s[k], id); }
      WithoutId(before, id) + WithoutId(after, id);
    ==
      before + after;
    }
  }

  /** Filtering out an entry's own identifier from the one-entry collection
      leaves nothing. */
  lemma SingleMatchRemoved(e: Entry, id: string)
    requires e.id == id
    ensures WithoutId([e], id) == []
  {
    assert [e][1..] == [];
  }

  /** With unique identifiers, no entry before or after the one found by
      `FindIndex` carries its identifier. */
  lemma NoMatchAround(s: seq<Entry>, id: string, k: int)
    requires UniqueIds(s)
    requires 0 <= k < |s| && k == FindIndex(s, id)
    ensures !HasId(s[..k], id) && !HasId(s[k + 1..], id)
  {
  }

  /** Vote changes no identifier, so every lookup finds the same position
      afterwards. */
  lemma VotedKeepsIndex(s: seq<Entry>, k: int, delta: int, id: string)
    requires 0 <= k < |s|
    ensures FindIndex(Voted(s, k, delta), id) == FindIndex(s, id)
  {
    var t := Voted(s, k, delta);
    assert forall j :: 0 <= j < |s| ==> t[j].id == s[j].id;
    assert HasId(t, id) <==> HasId(s, id) by {
      if HasId(t, id) {
        var i :| 0 <= i < |t| && t[i].id == id;
        assert s[i].id == id;
      }
      if HasId(s, id) {
        var i :| 0 <= i < |s| && s[i].id == id;
        assert t[i].id == id;
      }
    }
  }

  /** An "up" vote followed by a "down" vote on the same identifier hits the
      same entry and restores the original collection. */
  lemma VoteUpThenDownRestores(s: seq<Entry>, id: string)
    requires HasId(s, id)
    ensures var k := FindIndex(s, id);
            var after := Voted(s, k, Delta(Some("up")));
            FindIndex(after, id) == k && Voted(after, k, Delta(Some("down"))) == s
  {
    var k := FindIndex(s, id);
    VotedKeepsIndex(s, k, 1, id);
    var back := Voted(Voted(s, k, 1), k, -1);
    assert forall j :: 0 <= j < |s| ==> back[j] == s[j];
  }

  /** With repeated identifiers vote and delete diverge: vote touches only the
      first match, delete removes every match. */
  lemma VoteFirstDeleteAll(s: seq<Entry>, id: string, j: int, delta: int)
    requires 0 <= j < |s| && s[j].id == id
    requires j != FindIndex(s, id)
    ensures FindIndex(s, id) < j
    ensures Voted(s, FindIndex(s, id), delta)[j] == s[j]
    ensures s[j] !in WithoutId(s, id) && s[FindIndex(s, id)] !in WithoutId(s, id)
  {
    assert HasId(s, id);
  }

  /** Appending keeps identifiers unique exactly when the new identifier is
      not already in use; the server relies on the clock for this. */
  lemma AppendKeepsIdsUnique(s: seq<Entry>, e: Entry)
    requires UniqueIds(s)
    ensures UniqueIds(s + [e]) <==> !HasId(s, e.id)
  {
    var t := s + [e];
    if HasId(s, e.id) {
      var i :| 0 <= i < |s| && s[i].id == e.id;
      assert t[i].id == t[|s|].id;
    }
  }

  /** Voting keeps identifiers unique. */
  lemma VotedKeepsIdsUnique(s: seq<Entry>, k: int, delta: int)
    requires 0 <= k < |s|
    requires UniqueIds(s)
    ensures UniqueIds(Voted(s, k, delta))
  {
    var t := Voted(s, k, delta);
    assert forall j :: 0 <= j < |s| ==> t[j].id == s[j].id;
  }
}
