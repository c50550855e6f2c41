/**
 * The FIFO lists of the wheel as values. Each list of the linked-list
 * library is a sequence of element identities; `Home` is the back-pointer an
 * element keeps to the list it sits on, which is what lets `RemoveSelf`
 * detach it. `Agree` is the bookkeeping invariant: the back-pointers and the
 * lists say the same thing, and no element sits twice on any list.
 */
module Buckets {
  import opened Jobs

  /** The list an attached element sits on: a spoke of the wheel, or `doNow`. */
  datatype Home = InSpoke(index: nat) | InDoNow

  predicate NoDup(s: seq<EntryId>)
  {
    forall i, j :: 0 <= i < j < |s| ==> s[i] != s[j]
  }

  ghost predicate Located(sp: seq<seq<EntryId>>, now: seq<EntryId>, e: EntryId, h: Home)
  {
    match h
    case InSpoke(i) => i < |sp| && e in sp[i]
    case InDoNow => e in now
  }

  ghost predicate Agree(sp: seq<seq<EntryId>>, now: seq<EntryId>, home: map<EntryId, Home>)
  {
    (forall i, j :: 0 <= i < |sp| && 0 <= j < |sp[i]| ==> sp[i][j] in home && home[sp[i][j]] == InSpoke(i)) &&
    (forall j :: 0 <= j < |now| ==> now[j] in home && home[now[j]] == InDoNow) &&
    (forall e {:trigger Located(sp, now, e, home[e])} :: e in home ==> Located(sp, now, e, home[e])) &&
    (forall i :: 0 <= i < |sp| ==> NoDup(sp[i])) &&
    NoDup(now)
  }

  /** Total length of a sequence of lists. */
  function SumLens(sp: seq<seq<EntryId>>): nat
  {
    if sp == [] then 0 else SumLens(sp[..|sp| - 1]) + |sp[|sp| - 1]|
  }

  /** Replacing one list changes the total by the difference of the two lengths. */
  lemma {:induction false} SumLensUpdate(sp: seq<seq<EntryId>>, i: nat, s: seq<EntryId>)
    requires i < |sp|
    ensures SumLens(sp[i := s]) == SumLens(sp) - |sp[i]| + |s|
    decreases |sp|
  {
    var n := |sp| - 1;
    var sp' := sp[i := s];
    assert sp'[..n] == if i == n then sp[..n] else sp[..n][i := s];
    if i < n {
      SumLensUpdate(sp[..n], i, s);
    }
  }

  /** `RemoveSelf` on a list: the element goes, the others keep their order. */
  function Remove(s: seq<EntryId>, e: EntryId): (r: seq<EntryId>)
    ensures forall x :: x in r <==> x in s && x != e
    ensures NoDup(s) ==> NoDup(r)
    ensures NoDup(s) && e in s ==> |r| == |s| - 1
    ensures e !in s ==> r == s
    ensures e in s && NoDup(s) ==> exists i :: 0 <= i < |s| && s[i] == e && r == s[..i] + s[i + 1..]
  {
    if s == [] then []
    else
      var rest := Remove(s[1..], e);
      assert NoDup(s) ==> s[0] !in s[1..] && NoDup(s[1..]);
      if s[0] == e then
        assert NoDup(s) ==> rest == s[..0] + s[0 + 1..];
        rest
      else
        ConsSplit(s, e, rest);
        [s[0]] + rest
  }

  /** Putting back the front element of `s`, which is not `e`, in front of `s[1..]` with `e` taken out. */
  lemma ConsSplit(s: seq<EntryId>, e: EntryId, rest: seq<EntryId>)
    requires |s| > 0 && s[0] != e
    ensures (exists j :: 0 <= j < |s[1..]| && s[1..][j] == e && rest == s[1..][..j] + s[1..][j + 1..]) ==>
            exists i :: 0 <= i < |s| && s[i] == e && [s[0]] + rest == s[..i] + s[i + 1..]
  {
    if j :| 0 <= j < |s[1..]| && s[1..][j] == e && rest == s[1..][..j] + s[1..][j + 1..] {
      assert s[..j + 1] == [s[0]] + s[1..][..j];
      assert s[j + 2..] == s[1..][j + 1..];
      assert s[j + 1] == e && [s[0]] + rest == s[..j + 1] + s[j + 1 + 1..];
    }
  }

  /** The back-pointers after the whole of spoke `i` moved onto `doNow`. */
  function Spliced(home: map<EntryId, Home>, i: nat): (h: map<EntryId, Home>)
    ensures h.Keys == home.Keys
  {
    map e | e in home :: if home[e] == InSpoke(i) then InDoNow else home[e]
  }

  lemma AgreePushSpoke(sp: seq<seq<EntryId>>, now: seq<EntryId>, home: map<EntryId, Home>, i: nat, e: EntryId)
    requires Agree(sp, now, home) && i < |sp| && e !in home
    ensures Agree(sp[i := sp[i] + [e]], now, home[e := InSpoke(i)])
  {
    var sp' := sp[i := sp[i] + [e]];
    var home' := home[e := InSpoke(i)];
    forall x | x in home'
      ensures Located(sp', now, x, home'[x])
    {
      if x != e {
        assert Located(sp, now, x, home[x]);
      }
    }
  }

  lemma AgreePushNow(sp: seq<seq<EntryId>>, now: seq<EntryId>, home: map<EntryId, Home>, e: EntryId)
    requires Agree(sp, now, home) && e !in home
    ensures Agree(sp, now + [e], home[e := InDoNow])
  {
    var home' := home[e := InDoNow];
    forall x | x in home'
      ensures Located(sp, now + [e], x, home'[x])
    {
      if x != e {
        assert Located(sp, now, x, home[x]);
      }
    }
  }

  lemma AgreePopSpoke(sp: seq<seq<EntryId>>, now: seq<EntryId>, home: map<EntryId, Home>, i: nat)
    requires Agree(sp, now, home) && i < |sp| && |sp[i]| > 0
    ensures Agree(sp[i := sp[i][1..]], now, home - {sp[i][0]})
  {
    var e := sp[i][0];
    var sp' := sp[i := sp[i][1..]];
    var home' := home - {e};
    forall x | x in home'
      ensures Located(sp', now, x, home'[x])
    {
      assert Located(sp, now, x, home[x]);
      if home[x] == InSpoke(i) {
        var j :| 0 <= j < |sp[i]| && sp[i][j] == x;
        assert j != 0;
        assert sp'[i][j - 1] == x;
      }
    }
  }

  lemma AgreePopNow(sp: seq<seq<EntryId>>, now: seq<EntryId>, home: map<EntryId, Home>)
    requires Agree(sp, now, home) && |now| > 0
    ensures Agree(sp, now[1..], home - {now[0]})
  {
    var e := now[0];
    var home' := home - {e};
    forall x | x in home'
      ensures Located(sp, now[1..], x, home'[x])
    {
      assert Located(sp, now, x, home[x]);
      if home[x] == InDoNow {
        var j :| 0 <= j < |now| && now[j] == x;
        assert j != 0;
        assert now[1..][j - 1] == x;
      }
    }
  }

  lemma AgreeSplice(sp: seq<seq<EntryId>>, now: seq<EntryId>, home: map<EntryId, Home>, i: nat)
    requires Agree(sp, now, home) && i < |sp|
    ensures Agree(sp[i := []], now + sp[i], Spliced(home, i))
  {
    var sp' := sp[i := []];
    var now' := now + sp[i];
    var home' := Spliced(home, i);
    forall j, k | 0 <= j < k < |now'|
      ensures now'[j] != now'[k]
    {
      if k >= |now| && j < |now| {
        assert home[now'[k]] == InSpoke(i);
        assert home[now'[j]] == InDoNow;
      }
    }
    forall x | x in home'
      ensures Located(sp', now', x, home'[x])
    {
      assert Located(sp, now, x, home[x]);
    }
  }

  lemma AgreeRemove(sp: seq<seq<EntryId>>, now: seq<EntryId>, home: map<EntryId, Home>, e: EntryId)
    requires Agree(sp, now, home) && e in home
    requires home[e].InSpoke? ==> home[e].index < |sp|
    ensures home[e].InSpoke? ==> Agree(sp[home[e].index := Remove(sp[home[e].index], e)], now, home - {e})
    ensures home[e].InDoNow? ==> Agree(sp, Remove(now, e), home - {e})
  {
    var home' := home - {e};
    match home[e]
    case InSpoke(i) =>
      var sp' := sp[i := Remove(sp[i], e)];
      forall x | x in home'
        ensures Located(sp', now, x, home'[x])
      {
        assert Located(sp, now, x, home[x]);
      }
      forall a, b | 0 <= a < |sp'| && 0 <= b < |sp'[a]|
        ensures sp'[a][b] in home' && home'[sp'[a][b]] == InSpoke(a)
      {
        if a == i {
          assert sp'[a][b] in sp[i];
        }
      }
    case InDoNow =>
      var now' := Remove(now, e);
      forall x | x in home'
        ensures Located(sp, now', x, home'[x])
      {
        assert Located(sp, now, x, home[x]);
      }
      forall b | 0 <= b < |now'|
        ensures now'[b] in home' && home'[now'[b]] == InDoNow
      {
        assert now'[b] in now;
      }
  }

  lemma {:induction false} SumLensAllEmpty(sp: seq<seq<EntryId>>)
    requires forall i :: 0 <= i < |sp| ==> sp[i] == []
    ensures SumLens(sp) == 0
    decreases |sp|
  {
    if sp != [] {
      SumLensAllEmpty(sp[..|sp| - 1]);
    }
  }

  lemma SumLensPrefix(sp: seq<seq<EntryId>>, i: nat)
    requires i < |sp|
    ensures SumLens(sp[..i + 1]) == SumLens(sp[..i]) + |sp[i]|
  {
    assert sp[..i + 1][..i] == sp[..i];
  }

  /** The spokes after `RemoveSelf(e)`: `e` leaves the spoke its back-pointer names, if any. */
  function DetachSpokes(sp: seq<seq<EntryId>>, home: map<EntryId, Home>, e: EntryId): seq<seq<EntryId>>
  {
    if e in home && home[e].InSpoke? && home[e].index < |sp| then
      sp[home[e].index := Remove(sp[home[e].index], e)]
    else sp
  }

  /** `doNow` after `RemoveSelf(e)`. */
  function DetachNow(now: seq<EntryId>, home: map<EntryId, Home>, e: EntryId): seq<EntryId>
  {
    if e in home && home[e].InDoNow? then Remove(now, e) else now
  }

  /** What `Agree` says about one spoke: its elements point back to it, and nothing else does. */
  lemma AgreeSpoke(sp: seq<seq<EntryId>>, now: seq<EntryId>, home: map<EntryId, Home>, i: nat)
    requires Agree(sp, now, home) && i < |sp|
    ensures NoDup(sp[i])
    ensures forall j :: 0 <= j < |sp[i]| ==> sp[i][j] in home && home[sp[i][j]] == InSpoke(i)
    ensures forall e :: e in home && home[e] == InSpoke(i) ==> e in sp[i]
  {
    forall e | e in home && home[e] == InSpoke(i)
      ensures e in sp[i]
    {
      assert Located(sp, now, e, home[e]);
    }
  }

  /** The front of `doNow` points back to `doNow`. */
  lemma AgreeNowFront(sp: seq<seq<EntryId>>, now: seq<EntryId>, home: map<EntryId, Home>)
    requires Agree(sp, now, home) && now != []
    ensures now[0] in home && home[now[0]] == InDoNow
  {
  }

  /** Every element whose back-pointer names `doNow` is on `doNow`. */
  lemma AgreeNowAll(sp: seq<seq<EntryId>>, now: seq<EntryId>, home: map<EntryId, Home>)
    requires Agree(sp, now, home)
    ensures forall e :: e in home && home[e] == InDoNow ==> e in now
  {
    forall e | e in home && home[e] == InDoNow
      ensures e in now
    {
      assert Located(sp, now, e, home[e]);
    }
  }
}
