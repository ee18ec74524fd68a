/**
 * The normalised sheet row both fetchers emit, and the shape shared by
 * their parse loops: walk the items in order, append a row for some of
 * them, and stop at the first item that raises.
 */
module Rows {
  import opened Wrappers

  datatype Platform = Android | IOS

  /** The text written into the platform column. */
  function PlatformName(p: Platform): string {
    match p
    case Android => "Android"
    case IOS => "iOS"
  }

  /** The platform column tells the two platforms apart: each name belongs to one platform. */
  lemma PlatformNamesDistinct(p: Platform, q: Platform)
    ensures PlatformName(p) == PlatformName(q) <==> p == q
  {
    if p != q {
      assert PlatformName(p)[0] != PlatformName(q)[0];
    }
  }

  /** One sheet line `[date, country, platform, count]`. */
  datatype Row = Row(date: string, country: string, platform: Platform, count: int)

  /** The exception raised while handling the item at `index`. */
  datatype Failure<E> = Failure(index: nat, cause: E)

  /** What handling one item gives: a row, nothing, or an exception. */
  predicate Produces<T, E>(o: Result<Option<T>, E>) {
    o.Ok? && o.value.Some?
  }

  /**
   * The `data = []; for ...: data.append(...)` loop over items whose
   * handling has already been worked out: the rows in item order, or the
   * first exception.
   */
  function Collect<T, E>(outs: seq<Result<Option<T>, E>>): (r: Result<seq<T>, Failure<E>>)
    ensures r.Ok? ==> |r.value| <= |outs|
    ensures r.Err? ==> r.error.index < |outs|
  {
    if outs == [] then Ok([])
    else
      var n := |outs| - 1;
      match Collect(outs[..n])
      case Err(f) => Err(f)
      case Ok(done) =>
        match outs[n]
        case Err(e) => Err(Failure(n, e))
        case Ok(None) => Ok(done)
        case Ok(Some(x)) => Ok(done + [x])
  }

  /** The positions of the items that produce a row, in order. */
  function Kept<T, E>(outs: seq<Result<Option<T>, E>>): seq<nat> {
    if outs == [] then []
    else
      var n := |outs| - 1;
      Kept(outs[..n]) + if Produces(outs[n]) then [n] else []
  }

  /** The loop finishes exactly when no item raises. */
  lemma {:induction false} CollectSucceeds<T, E>(outs: seq<Result<Option<T>, E>>)
    ensures Collect(outs).Ok? <==> forall k | 0 <= k < |outs| :: outs[k].Ok?
  {
    if outs != [] {
      var n := |outs| - 1;
      CollectSucceeds(outs[..n]);
      assert forall k | 0 <= k < n :: outs[..n][k] == outs[k];
      if Collect(outs[..n]).Err? {
        var f := Collect(outs[..n]).error;
        assert !outs[..n][f.index].Ok? by {
          CollectFirstFailure(outs[..n]);
        }
      }
    }
  }

  /** When the loop raises, it is the first item that raises. */
  lemma {:induction false} CollectFirstFailure<T, E>(outs: seq<Result<Option<T>, E>>)
    requires Collect(outs).Err?
    ensures var f := Collect(outs).error;
      && f.index < |outs| && outs[f.index] == Err(f.cause)
      && forall k | 0 <= k < f.index :: outs[k].Ok?
  {
    var n := |outs| - 1;
    if Collect(outs[..n]).Err? {
      CollectFirstFailure(outs[..n]);
      var f := Collect(outs).error;
      assert forall k | 0 <= k < n :: outs[..n][k] == outs[k];
    } else {
      CollectSucceeds(outs[..n]);
      assert forall k | 0 <= k < n :: outs[..n][k] == outs[k];
    }
  }

  /** The kept positions are real positions, increasing, and exactly those of the producing items. */
  lemma {:induction false} KeptPositions<T, E>(outs: seq<Result<Option<T>, E>>)
    ensures var src := Kept(outs);
      && (forall j | 0 <= j < |src| :: src[j] < |outs| && Produces(outs[src[j]]))
      && (forall i, j | 0 <= i < j < |src| :: src[i] < src[j])
      && (forall k | 0 <= k < |outs| :: k in src <==> Produces(outs[k]))
  {
    if outs != [] {
      var n := |outs| - 1;
      var prefix := outs[..n];
      KeptPositions(prefix);
      assert forall k | 0 <= k < n :: prefix[k] == outs[k];
      if Produces(outs[n]) {
        assert Kept(outs) == Kept(prefix) + [n];
      } else {
        assert Kept(outs) == Kept(prefix);
      }
    }
  }

  /**
   * The rows of a finished loop are the values of the producing items,
   * one per item, in item order, and no other item adds a row.
   */
  lemma CollectKept<T, E>(outs: seq<Result<Option<T>, E>>)
    requires Collect(outs).Ok?
    ensures var rows := Collect(outs).value; var src := Kept(outs);
      && |rows| == |src|
      && (forall j | 0 <= j < |src| :: src[j] < |outs| && outs[src[j]] == Ok(Some(rows[j])))
      && (forall i, j | 0 <= i < j < |src| :: src[i] < src[j])
      && (forall k | 0 <= k < |outs| :: k in src <==> Produces(outs[k]))
  {
    KeptPositions(outs);
    KeptValues(outs);
  }

  lemma {:induction false} KeptValues<T, E>(outs: seq<Result<Option<T>, E>>)
    requires Collect(outs).Ok?
    ensures var rows := Collect(outs).value; var src := Kept(outs);
      && |rows| == |src|
      && (forall j | 0 <= j < |src| :: src[j] < |outs| && outs[src[j]] == Ok(Some(rows[j])))
  {
    if outs != [] {
      var n := |outs| - 1;
      var prefix := outs[..n];
      KeptValues(prefix);
      var rows, prows := Collect(outs).value, Collect(prefix).value;
      assert forall k | 0 <= k < n :: prefix[k] == outs[k];
      if Produces(outs[n]) {
        assert rows == prows + [outs[n].value.value];
        assert Kept(outs) == Kept(prefix) + [n];
      } else {
        assert rows == prows;
        assert Kept(outs) == Kept(prefix);
      }
    }
  }

  /** Once some prefix of the items raises, the whole loop raises the same exception. */
  lemma {:induction false} CollectStops<T, E>(outs: seq<Result<Option<T>, E>>, m: nat)
    requires m <= |outs| && Collect(outs[..m]).Err?
    ensures Collect(outs) == Collect(outs[..m])
    decreases |outs| - m
  {
    if m < |outs| {
      assert outs[..m + 1][..m] == outs[..m];
      CollectStops(outs, m + 1);
    } else {
      assert outs[..m] == outs;
    }
  }

  /** Handling one more item extends the loop by that item alone. */
  lemma CollectStep<T, E>(outs: seq<Result<Option<T>, E>>, i: nat)
    requires i < |outs|
    ensures Collect(outs[..i + 1]) ==
      match Collect(outs[..i])
      case Err(f) => Err(f)
      case Ok(done) =>
        match outs[i]
        case Err(e) => Err(Failure(i, e))
        case Ok(None) => Ok(done)
        case Ok(Some(x)) => Ok(done + [x])
  {
    assert outs[..i + 1][..i] == outs[..i];
  }
}
