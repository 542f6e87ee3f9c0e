/** The part of an edit-and-continue map that has the handles of one kind. */
module HandleRanges {
  import opened Options

  datatype Handle = Handle(kind: nat, row: nat)

  predicate SortedByKind(handles: seq<Handle>) {
    forall i, j | 0 <= i < j < |handles| :: handles[i].kind <= handles[j].kind
  }

  /** What a binary search by kind may answer: any handle of the kind, or a negative number when
      there is none. */
  predicate Searched(handles: seq<Handle>, kind: nat, at: int) {
    if at < 0 then forall i | 0 <= i < |handles| :: handles[i].kind != kind
    else at < |handles| && handles[at].kind == kind
  }

  /** The range has the handles of the kind, all of them and no others. */
  predicate IsRange(handles: seq<Handle>, kind: nat, start: int, count: int) {
    && 0 <= start <= start + count <= |handles|
    && forall i | 0 <= i < |handles| :: handles[i].kind == kind <==> start <= i < start + count
  }

  /** Widens the hit of the search to both sides.  Whichever hit the search gives, the range is
      the whole range of the kind. */
  method TryGetHandleRange(handles: seq<Handle>, kind: nat, hit: int) returns (ok: bool, start: int, count: int)
    requires SortedByKind(handles) && Searched(handles, kind, hit)
    ensures ok <==> exists i | 0 <= i < |handles| :: handles[i].kind == kind
    ensures !ok ==> start == count == 0
    ensures ok ==> IsRange(handles, kind, start, count) && count > 0
  {
    if hit < 0 {
      return false, 0, 0;
    }
    var s := hit;
    while s >= 0 && handles[s].kind == kind
      invariant -1 <= s <= hit
      invariant forall i | s < i <= hit :: handles[i].kind == kind
    {
      s := s - 1;
    }
    var e := hit;
    while e < |handles| && handles[e].kind == kind
      invariant hit <= e <= |handles|
      invariant forall i | hit <= i < e :: handles[i].kind == kind
    {
      e := e + 1;
    }
    ok, start, count := true, s + 1, e - (s + 1);
  }

  /** The range of a kind is determined, so every hit of the search gives the same one. */
  lemma OneRange(handles: seq<Handle>, kind: nat, start: int, count: int, start': int, count': int)
    requires IsRange(handles, kind, start, count) && count > 0
    requires IsRange(handles, kind, start', count') && count' > 0
    ensures start == start' && count == count'
  {
    assert handles[start].kind == kind && handles[start + count - 1].kind == kind;
    assert handles[start'].kind == kind && handles[start' + count' - 1].kind == kind;
  }

  /** The handle of a row: none, for the exceptions thrown without a range or outside the map. */
  method GetAggregateHandle(handles: seq<Handle>, kind: nat, row: int, hit: int) returns (r: Option<Handle>)
    requires SortedByKind(handles) && Searched(handles, kind, hit)
    ensures forall start, count | IsRange(handles, kind, start, count) && count > 0 ::
              && (r.Some? <==> 0 <= start + row - 1 < |handles|)
              && (r.Some? ==> (r.value.kind == kind <==> 1 <= row <= count))
              && (1 <= row <= count ==> r == Some(handles[start + row - 1]))
    ensures (forall i | 0 <= i < |handles| :: handles[i].kind != kind) ==> r == None
  {
    var ok, start, count := TryGetHandleRange(handles, kind, hit);
    assert forall s, c | IsRange(handles, kind, s, c) && c > 0 :: handles[s].kind == kind;
    if !ok {
      return None;
    }
    forall s, c | IsRange(handles, kind, s, c) && c > 0 ensures s == start && c == count {
      OneRange(handles, kind, start, count, s, c);
    }
    var i := start + row - 1;
    r := if 0 <= i < |handles| then Some(handles[i]) else None;
  }
}
