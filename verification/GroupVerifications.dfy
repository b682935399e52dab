/** The multimap of group applications that every user keeps, ordered by group. */
module GroupVerifications {
  import opened Collections
  import opened Identifiers

  datatype Entry = Entry(group: GroupID, user: UserID, kind: VerificationType)

  ghost predicate Sorted(s: seq<Entry>) {
    forall i, j :: 0 <= i < j < |s| ==> s[i].group <= s[j].group
  }

  /** Index of the first entry whose group is above `g`. */
  function UpperBound(s: seq<Entry>, g: GroupID): (p: nat)
    ensures p <= |s|
    ensures p < |s| ==> g < s[p].group
    ensures forall i :: 0 <= i < p ==> s[i].group <= g
  {
    if s == [] || g < s[0].group then 0 else 1 + UpperBound(s[1..], g)
  }

  /** Insertion behind all entries of the same group. */
  function Insert(s: seq<Entry>, e: Entry): seq<Entry> {
    var p := UpperBound(s, e.group);
    s[..p] + [e] + s[p..]
  }

  /** An insertion adds one copy of the entry and keeps the order. */
  lemma InsertedOne(s: seq<Entry>, e: Entry)
    ensures multiset(Insert(s, e)) == multiset(s) + multiset{e}
    ensures Sorted(s) ==> Sorted(Insert(s, e))
  {
    var p := UpperBound(s, e.group);
    assert s == s[..p] + s[p..];
    PutIn(s[..p], e, s[p..]);
    hide Sorted;
    if Sorted(s) { SortedSplice(s[..p], e, s[p..]); }
  }

  /** The new entry comes behind those of its group and of lower ones, in front of the others; all keep their order. */
  lemma InsertedBehind(s: seq<Entry>, e: Entry) returns (p: nat)
    requires Sorted(s)
    ensures p <= |s| && |Insert(s, e)| == |s| + 1 && Insert(s, e)[p] == e
    ensures forall i :: 0 <= i < p ==> Insert(s, e)[i] == s[i] && s[i].group <= e.group
    ensures forall i :: p <= i < |s| ==> Insert(s, e)[i + 1] == s[i] && e.group < s[i].group
  {
    p := UpperBound(s, e.group);
  }

  lemma SortedSplice(a: seq<Entry>, e: Entry, b: seq<Entry>)
    requires Sorted(a + b)
    requires forall i :: 0 <= i < |a| ==> a[i].group <= e.group
    requires b != [] ==> e.group <= b[0].group
    ensures Sorted(a + [e] + b)
  {
    var ab, r := a + b, a + [e] + b;
    assert forall i :: 0 <= i < |b| ==> b[i] == ab[|a| + i];
    forall i, j | 0 <= i < j < |r| ensures r[i].group <= r[j].group {
      if i < |a| && j < |a| { assert ab[i].group <= ab[j].group; }
      else if i < |a| && j > |a| { assert ab[i].group <= ab[j - 1].group; }
      else if i > |a| { assert ab[i - 1].group <= ab[j - 1].group; }
      else if i == |a| && |a| < j - 1 { assert ab[|a|].group <= ab[j - 1].group; }
    }
  }

  /** Number of entries in front of the first one of `g` and `u`; the length when there is none. */
  function Position(s: seq<Entry>, g: GroupID, u: UserID): (p: nat)
    ensures p <= |s|
    ensures p < |s| ==> s[p].group == g && s[p].user == u
    ensures forall i :: 0 <= i < p ==> !(s[i].group == g && s[i].user == u)
  {
    if s == [] || (s[0].group == g && s[0].user == u) then 0 else 1 + Position(s[1..], g, u)
  }

  /** The first entry of a group; the length when there is none. */
  function First(s: seq<Entry>, g: GroupID): (p: nat)
    ensures p <= |s|
    ensures p < |s| ==> s[p].group == g
    ensures forall i :: 0 <= i < p ==> s[i].group != g
  {
    if s == [] || s[0].group == g then 0 else 1 + First(s[1..], g)
  }

  /** What a removal does: it erases an entry, throws, changes nothing, or reads behind the last entry. */
  datatype Erasure = Erased(rest: seq<Entry>) | NotExisted | Untouched | PastEnd

  ghost predicate HasGroup(s: seq<Entry>, g: GroupID) {
    exists i :: 0 <= i < |s| && s[i].group == g
  }

  ghost predicate HasEntry(s: seq<Entry>, g: GroupID, u: UserID) {
    exists i :: 0 <= i < |s| && s[i].group == g && s[i].user == u
  }

  /** The four cases by what the multimap holds, without reference to any traversal. */
  ghost function Erase(s: seq<Entry>, g: GroupID, u: UserID): (r: Erasure) {
    if !HasGroup(s, g) then NotExisted
    else if HasEntry(s, g, u) then
      var p := Position(s, g, u);
      Erased(s[..p] + s[p + 1..])
    else if s[|s| - 1].group == g then PastEnd
    else Untouched
  }

  /** Where a lookup of `g` may land: on any entry of the group, and behind the last entry if there is none. */
  ghost predicate Lands(s: seq<Entry>, g: GroupID, start: nat) {
    if HasGroup(s, g) then start < |s| && s[start].group == g else start == |s|
  }

  /** An entry of the pair is at or behind the place. */
  ghost predicate Ahead(s: seq<Entry>, g: GroupID, u: UserID, start: nat) {
    exists i :: start <= i < |s| && s[i].group == g && s[i].user == u
  }

  /** The four cases when the lookup lands at `start`. */
  ghost function EraseFrom(s: seq<Entry>, g: GroupID, u: UserID, start: nat): (r: Erasure) {
    if !HasGroup(s, g) then NotExisted
    else if Ahead(s, g, u, start) then
      var p := start + Position(s[start..], g, u);
      Erased(s[..p] + s[p + 1..])
    else if s[|s| - 1].group == g then PastEnd
    else Untouched
  }

  /** The traversal of User::removeGroupVerification: the key is read before the end is tested. */
  method RemoveEntry(s: seq<Entry>, g: GroupID, u: UserID, start: nat) returns (r: Erasure)
    requires Sorted(s) && Lands(s, g, start)
    ensures r == EraseFrom(s, g, u, start)
  {
    hide Position, Sorted;
    var i := start;
    if i == |s| {
      return NotExisted;
    }
    while true
      invariant start <= i <= |s| && HasGroup(s, g)
      invariant forall k :: start <= k < i ==> s[k].group == g && s[k].user != u
      invariant i == |s| ==> s[i - 1].group == g
      decreases |s| - i
    {
      if i == |s| {
        return PastEnd;
      }
      if s[i].group != g {
        BeyondGroup(s, g, start, i);
        return Untouched;
      }
      if s[i].user == u {
        PositionFrom(s, g, u, start, i);
        return Erased(s[..i] + s[i + 1..]);
      }
      i := i + 1;
    }
  }

  lemma BeyondGroup(s: seq<Entry>, g: GroupID, start: nat, i: nat)
    requires Sorted(s) && start <= i < |s| && s[start].group == g && s[i].group != g
    ensures forall k :: i <= k < |s| ==> s[k].group > g
  {
  }

  lemma PositionFrom(s: seq<Entry>, g: GroupID, u: UserID, start: nat, i: nat)
    requires start <= i < |s| && s[i].group == g && s[i].user == u
    requires forall k :: start <= k < i ==> !(s[k].group == g && s[k].user == u)
    ensures Position(s[start..], g, u) == i - start
  {
    assert s[start..][i - start] == s[i];
    var p := Position(s[start..], g, u);
    assert p < |s| - start ==> s[start..][p] == s[start + p];
  }

  /** Wherever the lookup lands, an entry is erased exactly if one of the pair is not passed over. */
  lemma ErasedFromIff(s: seq<Entry>, g: GroupID, u: UserID, start: nat)
    requires Lands(s, g, start)
    ensures EraseFrom(s, g, u, start).Erased? <==> Ahead(s, g, u, start)
    ensures !HasEntry(s, g, u) ==> EraseFrom(s, g, u, start) == Erase(s, g, u)
  {
  }

  /** On the first entry of the group nothing is passed over. */
  lemma FromFirst(s: seq<Entry>, g: GroupID, u: UserID)
    ensures Lands(s, g, First(s, g))
    ensures EraseFrom(s, g, u, First(s, g)) == Erase(s, g, u)
    ensures HasEntry(s, g, u) ==> Ahead(s, g, u, First(s, g))
  {
    if HasEntry(s, g, u) { PositionFrom(s, g, u, First(s, g), Position(s, g, u)); }
  }

  /** Then exactly one entry of the pair (g, u) is taken, and the others keep their order. */
  lemma ErasedOneFrom(s: seq<Entry>, g: GroupID, u: UserID, start: nat) returns (kind: VerificationType)
    requires Ahead(s, g, u, start)
    ensures EraseFrom(s, g, u, start).Erased?
    ensures multiset(s) == multiset(EraseFrom(s, g, u, start).rest) + multiset{Entry(g, u, kind)}
    ensures Sorted(s) ==> Sorted(EraseFrom(s, g, u, start).rest)
  {
    var p := ErasedAt(s, g, u, start);
    kind := s[p].kind;
    hide *;
    TakeOut(s, p);
    if Sorted(s) { SortedWithout(s, p); }
  }

  lemma ErasedAt(s: seq<Entry>, g: GroupID, u: UserID, start: nat) returns (p: nat)
    requires Ahead(s, g, u, start)
    ensures start <= p < |s| && s[p].group == g && s[p].user == u
    ensures EraseFrom(s, g, u, start) == Erased(s[..p] + s[p + 1..])
  {
    var i :| start <= i < |s| && s[i].group == g && s[i].user == u;
    assert s[start..][i - start] == s[i];
    p := start + Position(s[start..], g, u);
    assert s[start..][p - start] == s[p];
    hide Position;
  }

  /** With a lookup that lands on the first entry of the group, it is enough that there is an entry of the pair. */
  lemma ErasedOne(s: seq<Entry>, g: GroupID, u: UserID) returns (kind: VerificationType)
    requires HasEntry(s, g, u)
    ensures Erase(s, g, u).Erased?
    ensures multiset(s) == multiset(Erase(s, g, u).rest) + multiset{Entry(g, u, kind)}
    ensures Sorted(s) ==> Sorted(Erase(s, g, u).rest)
  {
    FromFirst(s, g, u);
    kind := ErasedOneFrom(s, g, u, First(s, g));
  }

  lemma ErasedSorted(s: seq<Entry>, g: GroupID, u: UserID, start: nat)
    requires Sorted(s) && EraseFrom(s, g, u, start).Erased?
    ensures Sorted(EraseFrom(s, g, u, start).rest)
  {
    hide Sorted;
    var kind := ErasedOneFrom(s, g, u, start);
  }

  lemma SortedWithout(s: seq<Entry>, p: nat)
    requires Sorted(s) && p < |s|
    ensures Sorted(s[..p] + s[p + 1..])
  {
  }
}
