/**
 * The manager guard: a request may reach a manager-only route when the
 * second piece of `authorization.split("Bearer ")` equals the configured
 * manager token. Every failure, including an absent header, is reported as
 * Unauthorized.
 */
module ManagerGuards {
  import opened Wrappers

  const Bearer: string := "Bearer "

  datatype GuardResult = Allowed | Unauthorized(message: string)

  const InvalidBearerToken: string := "Invalid Bearer token"

  /** sep occurs in s starting at index i. */
  predicate OccursAt(s: string, sep: string, i: int) {
    0 <= i && i + |sep| <= |s| && s[i..i + |sep|] == sep
  }

  /** No occurrence of sep starts at an index in [lo, hi). */
  predicate NoneBetween(s: string, sep: string, lo: int, hi: int) {
    forall k :: lo <= k < hi ==> !OccursAt(s, sep, k)
  }

  /**
   * `s.indexOf(sep, from)` for a non-empty separator, None for -1. That the
   * index found is the first one from `from` on is IndexOfFromIsFirst.
   */
  function IndexOfFrom(s: string, sep: string, from: nat): (r: Option<nat>)
    requires |sep| > 0
    ensures r.Some? ==> from <= r.value && OccursAt(s, sep, r.value)
    decreases |s| - from
  {
    if from + |sep| > |s| then None
    else if OccursAt(s, sep, from) then Some(from)
    else IndexOfFrom(s, sep, from + 1)
  }

  /** No occurrence is skipped: before the index found, or anywhere when none is found. */
  lemma {:induction false} IndexOfFromIsFirst(s: string, sep: string, from: nat)
    requires |sep| > 0
    ensures IndexOfFrom(s, sep, from).Some? ==>
      NoneBetween(s, sep, from, IndexOfFrom(s, sep, from).value)
    ensures IndexOfFrom(s, sep, from).None? ==> NoneBetween(s, sep, from, |s|)
    decreases |s| - from
  {
    if from + |sep| <= |s| && !OccursAt(s, sep, from) {
      IndexOfFromIsFirst(s, sep, from + 1);
    }
  }

  /** The search from `from` stops at j when sep occurs at j and nowhere in between. */
  lemma IndexOfFromFinds(s: string, sep: string, from: nat, j: int)
    requires |sep| > 0 && from <= j && OccursAt(s, sep, j) && NoneBetween(s, sep, from, j)
    ensures IndexOfFrom(s, sep, from) == Some(j)
  {
    IndexOfFromIsFirst(s, sep, from);
    var r := IndexOfFrom(s, sep, from);
    var v := if r.Some? then r.value else j;
    assert r.None? ==> !OccursAt(s, sep, j);
    assert v < j ==> !OccursAt(s, sep, v);
    assert j < v ==> !OccursAt(s, sep, j);
  }

  /** The search from `from` fails when sep occurs nowhere from there on. */
  lemma IndexOfFromMisses(s: string, sep: string, from: nat)
    requires |sep| > 0 && NoneBetween(s, sep, from, |s|)
    ensures IndexOfFrom(s, sep, from).None?
  {
  }

  /**
   * Element [1] of `s.split(sep)`: the text between the first occurrence of
   * sep and the next one (or the end of s); None when sep does not occur,
   * where JavaScript yields `undefined`.
   */
  function SecondPiece(s: string, sep: string): Option<string>
    requires |sep| > 0
  {
    match IndexOfFrom(s, sep, 0)
    case None => None
    case Some(i) =>
      match IndexOfFrom(s, sep, i + |sep|)
      case None => Some(s[i + |sep|..])
      case Some(j) => Some(s[i + |sep|..j])
  }

  /**
   * `ManagerGuard.canActivate`: an absent header makes `split` throw, a
   * missing piece is `undefined`, and a mismatch throws; all three end in
   * the same Unauthorized exception.
   */
  function CanActivate(authorization: Option<string>, managerToken: string): GuardResult {
    match authorization
    case None => Unauthorized(InvalidBearerToken)
    case Some(header) =>
      if SecondPiece(header, Bearer) == Some(managerToken) then Allowed
      else Unauthorized(InvalidBearerToken)
  }

  /**
   * The declarative reading of the check: the header holds "Bearer " for the
   * first time at some index, the token follows it, no "Bearer " starts
   * inside the token, and the token ends the header or is followed by
   * another "Bearer ".
   */
  ghost predicate TokenAfterFirstBearer(header: string, token: string) {
    exists i :: PieceAfterFirstAt(header, Bearer, token, i)
  }

  /** piece is element [1] of `s.split(sep)`, the first sep being at index i. */
  predicate PieceAfterFirstAt(s: string, sep: string, piece: string, i: int) {
    var start := i + |sep|;
    && 0 <= i && OccursAt(s, sep, i)
    && NoneBetween(s, sep, 0, i)
    && start + |piece| <= |s|
    && s[start..start + |piece|] == piece
    && NoneBetween(s, sep, start, start + |piece|)
    && (start + |piece| == |s| || OccursAt(s, sep, start + |piece|))
  }

  /** The guard lets a request through exactly when the declarative reading holds. */
  lemma CanActivateIff(header: string, token: string)
    ensures CanActivate(Some(header), token) == Allowed <==> TokenAfterFirstBearer(header, token)
  {
    if CanActivate(Some(header), token) == Allowed {
      SecondPieceIsPieceAfterFirst(header, Bearer, token, IndexOfFrom(header, Bearer, 0).value);
    }
    if TokenAfterFirstBearer(header, token) {
      var i :| PieceAfterFirstAt(header, Bearer, token, i);
      PieceAfterFirstIsSecondPiece(header, Bearer, token, i);
    }
  }

  /** SecondPiece, given where the first and the second occurrence are. */
  lemma SecondPieceFrom(s: string, sep: string, i: nat, next: Option<nat>)
    requires |sep| > 0
    requires IndexOfFrom(s, sep, 0) == Some(i)
    requires IndexOfFrom(s, sep, i + |sep|) == next
    ensures next.None? ==> SecondPiece(s, sep) == Some(s[i + |sep|..])
    ensures next.Some? ==> SecondPiece(s, sep) == Some(s[i + |sep|..next.value])
  {
  }

  /** The piece `split` yields after the first separator, at i, has the declarative shape. */
  lemma SecondPieceIsPieceAfterFirst(s: string, sep: string, piece: string, i: nat)
    requires |sep| > 0 && IndexOfFrom(s, sep, 0) == Some(i)
    requires SecondPiece(s, sep) == Some(piece)
    ensures PieceAfterFirstAt(s, sep, piece, i)
  {
    var start := i + |sep|;
    var next := IndexOfFrom(s, sep, start);
    SecondPieceFrom(s, sep, i, next);
    IndexOfFromIsFirst(s, sep, 0);
    IndexOfFromIsFirst(s, sep, start);
    var end := if next.Some? then next.value else |s|;
    PieceBetween(s, sep, piece, i, end);
  }

  /** The text from the end of the separator at i up to end, with no separator inside. */
  lemma PieceBetween(s: string, sep: string, piece: string, i: nat, end: int)
    requires OccursAt(s, sep, i) && NoneBetween(s, sep, 0, i)
    requires i + |sep| <= end <= |s| && piece == s[i + |sep|..end]
    requires NoneBetween(s, sep, i + |sep|, end)
    requires end == |s| || OccursAt(s, sep, end)
    ensures PieceAfterFirstAt(s, sep, piece, i)
  {
    var start := i + |sep|;
    assert start + |piece| == end;
    assert s[start..start + |piece|] == piece;
  }

  /** Conversely, a piece of the declarative shape is what `split` yields. */
  lemma PieceAfterFirstIsSecondPiece(s: string, sep: string, piece: string, i: int)
    requires |sep| > 0 && PieceAfterFirstAt(s, sep, piece, i)
    ensures SecondPiece(s, sep) == Some(piece)
  {
    var start := i + |sep|;
    IndexOfFromFinds(s, sep, 0, i);
    if start + |piece| == |s| {
      IndexOfFromMisses(s, sep, start);
      SecondPieceFrom(s, sep, i, None);
      assert s[start..] == piece;
    } else {
      IndexOfFromFinds(s, sep, start, start + |piece|);
      SecondPieceFrom(s, sep, i, Some(start + |piece|));
    }
  }

  /** "Bearer " followed by exactly the token is let through. */
  lemma AcceptsBearerToken(token: string)
    requires forall k :: !OccursAt(token, Bearer, k)
    ensures CanActivate(Some(Bearer + token), token) == Allowed
  {
    var header := Bearer + token;
    var n := |Bearer|;
    assert header[..n] == Bearer;
    assert header[n..n + |token|] == token;
    forall k | n <= k < n + |token|
      ensures !OccursAt(header, Bearer, k)
    {
      if k + n <= |header| {
        assert header[k..k + n] == token[k - n..k];
        assert !OccursAt(token, Bearer, k - n);
      }
    }
    assert PieceAfterFirstAt(header, Bearer, token, 0);
    PieceAfterFirstIsSecondPiece(header, Bearer, token, 0);
  }

  lemma RejectsAbsentHeader(token: string)
    ensures CanActivate(None, token) == Unauthorized(InvalidBearerToken)
  {
  }

  /** A header in which "Bearer " never occurs has no second piece. */
  lemma RejectsHeaderWithoutBearer(header: string, token: string)
    requires forall k :: !OccursAt(header, Bearer, k)
    ensures CanActivate(Some(header), token) == Unauthorized(InvalidBearerToken)
  {
    assert IndexOfFrom(header, Bearer, 0).None?;
  }

  /** sep occurs in the suffix from i at k exactly when it occurs in s at i + k. */
  lemma OccursInSuffix(s: string, sep: string, i: nat, k: int)
    requires i <= |s|
    ensures OccursAt(s[i..], sep, k) <==> 0 <= k && OccursAt(s, sep, i + k)
  {
    if 0 <= k && i + k + |sep| <= |s| {
      assert s[i..][k..k + |sep|] == s[i + k..i + k + |sep|];
    }
  }

  /** Cutting s just before its first separator keeps the declarative reading, shifted. */
  lemma PieceAfterFirstOfSuffix(s: string, sep: string, piece: string, i: nat)
    requires |sep| > 0 && i <= |s| && OccursAt(s, sep, i) && NoneBetween(s, sep, 0, i)
    ensures PieceAfterFirstAt(s, sep, piece, i) <==> PieceAfterFirstAt(s[i..], sep, piece, 0)
  {
    var t := s[i..];
    var n := |sep|;
    OccursInSuffix(s, sep, i, 0);
    if n + |piece| <= |t| {
      assert t[n..n + |piece|] == s[i + n..i + n + |piece|];
    }
    OccursInSuffix(s, sep, i, n + |piece|);
    assert NoneBetween(t, sep, n, n + |piece|) <==> NoneBetween(s, sep, i + n, i + n + |piece|) by {
      if NoneBetween(s, sep, i + n, i + n + |piece|) {
        forall k | n <= k < n + |piece| ensures !OccursAt(t, sep, k) {
          OccursInSuffix(s, sep, i, k);
        }
      }
      if NoneBetween(t, sep, n, n + |piece|) {
        forall k | i + n <= k < i + n + |piece| ensures !OccursAt(s, sep, k) {
          OccursInSuffix(s, sep, i, k - i);
        }
      }
    }
  }

  /** Two positions that are both the first occurrence of sep are the same. */
  lemma FirstOccurrenceUnique(s: string, sep: string, i: int, j: int)
    requires OccursAt(s, sep, i) && NoneBetween(s, sep, 0, i)
    requires OccursAt(s, sep, j) && NoneBetween(s, sep, 0, j)
    ensures i == j
  {
    assert i < j ==> !OccursAt(s, sep, i);
    assert j < i ==> !OccursAt(s, sep, j);
  }

  /** The guard's verdict ignores whatever precedes the first "Bearer ". */
  lemma IgnoresTextBeforeFirstBearer(header: string, i: nat, token: string)
    requires IndexOfFrom(header, Bearer, 0) == Some(i)
    ensures CanActivate(Some(header), token) == CanActivate(Some(header[i..]), token)
  {
    var t := header[i..];
    IndexOfFromIsFirst(header, Bearer, 0);
    CanActivateIff(header, token);
    CanActivateIff(t, token);
    PieceAfterFirstOfSuffix(header, Bearer, token, i);
    OccursInSuffix(header, Bearer, i, 0);
    if TokenAfterFirstBearer(header, token) {
      var j :| PieceAfterFirstAt(header, Bearer, token, j);
      FirstOccurrenceUnique(header, Bearer, i, j);
    }
    if TokenAfterFirstBearer(t, token) {
      var j :| PieceAfterFirstAt(t, Bearer, token, j);
      FirstOccurrenceUnique(t, Bearer, 0, j);
    }
  }

  /** The guard's only outcomes are Allowed and the one Unauthorized error. */
  lemma OnlyUnauthorizedFailure(authorization: Option<string>, token: string)
    ensures CanActivate(authorization, token) == Allowed
         || CanActivate(authorization, token) == Unauthorized(InvalidBearerToken)
  {
  }
}
