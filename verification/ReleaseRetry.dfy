/** The release preflight's bounded retries against the package index, and its three-way status. */
module ReleaseRetry {
  import opened Options

  /** One entry of the index's file list, as far as it has the expected types. */
  datatype Item = NotAMapping | Item(filename: Option<string>, sha256: Option<string>)

  type HttpCode = n: int | 100 <= n <= 999 witness 200

  /** What one request can come to. */
  datatype Response =
    | Document(urls: seq<Item>)      // 200 with a JSON object
    | NotAnObject                    // 200 with other JSON
    | OtherStatus(status: HttpCode)  // a response whose status is not 200
    | NotJson                        // 200 with text that does not decode as JSON
    | HttpError(code: HttpCode)      // an HTTP error raised by the opener
    | Transport                      // a URL, timeout or OS error
    | Unexpected                     // any other exception, which nothing catches

  datatype Reply = Found(urls: seq<Item>) | Missing | ReleaseError | Crashed

  function Min(x: int, y: int): int { if x < y then x else y }

  function PowerOfTwo(n: nat): nat { if n == 0 then 1 else 2 * PowerOfTwo(n - 1) }

  /** The time slept after the first `n` failed attempts. */
  function Slept(n: nat): nat
  {
    if n == 0 then 0 else Slept(n - 1) + Min(PowerOfTwo(n - 1), 4)
  }

  /** One second, then two, then four each time. */
  lemma {:induction false} SleepSchedule(n: nat)
    ensures Slept(n) == if n == 0 then 0 else if n == 1 then 1 else 4 * n - 5
  {
    if n > 0 {
      SleepSchedule(n - 1);
      PowerGrows(n - 1);
    }
  }

  lemma {:induction false} PowerGrows(n: nat)
    ensures PowerOfTwo(n) >= n + 1 && (n == 1 ==> PowerOfTwo(n) == 2) && (n >= 2 ==> PowerOfTwo(n) >= 4)
  {
    if n > 0 { PowerGrows(n - 1); }
  }

  lemma {:induction false} SleepIsBounded(n: nat)
    ensures Slept(n) <= 4 * n
  {
    if n > 0 { SleepIsBounded(n - 1); }
  }

  /** A response after which the loop tries again. */
  predicate Retries(r: Response, retryNotFound: bool)
  {
    r.NotJson? || r.Transport? || (r.HttpError? && (r.code != 404 || retryNotFound))
  }

  /** What a response that ends the loop makes of the request. */
  function Settle(r: Response): Reply
  {
    match r
    case Document(urls) => Found(urls)
    case HttpError(_) => Missing
    case Unexpected => Crashed
    case _ => ReleaseError
  }

  /** The loop tries again after text that is no JSON, after a transport error and after an HTTP error,
      except a 404 that is not to be retried. What ends it is a document, which is the reply, that 404,
      which is "missing", another answer of the server, which is an error, or an uncaught exception. */
  lemma ResponsesTold(r: Response, retryNotFound: bool)
    ensures Retries(r, retryNotFound) <==>
            r in {NotJson, Transport} || exists code :: r == HttpError(code) && !(code == 404 && !retryNotFound)
    ensures !Retries(r, retryNotFound) ==>
              && (Settle(r) == Missing <==> r == HttpError(404))
              && (Settle(r).Found? <==> exists urls :: r == Document(urls) && Settle(r) == Found(urls))
              && (Settle(r) == ReleaseError <==> r == NotAnObject || exists status :: r == OtherStatus(status))
              && (Settle(r) == Crashed <==> r == Unexpected)
  {
    if r.HttpError? { assert r == HttpError(r.code); }
    if r.OtherStatus? { assert r == OtherStatus(r.status); }
    if r.Document? { assert r == Document(r.urls); }
  }

  /** Response `k` is the first that ends the loop. */
  ghost predicate Settles(responses: nat -> Response, retryNotFound: bool, k: nat)
  {
    !Retries(responses(k), retryNotFound) && forall j: nat :: j < k ==> Retries(responses(j), retryNotFound)
  }

  /** The retry loop of `_open_json`; `responses(k)` is what attempt `k` would bring. */
  method OpenJson(responses: nat -> Response, retries: int, retryNotFound: bool)
    returns (reply: Reply, calls: nat, slept: nat)
    ensures calls <= (if retries > 0 then retries else 0)
    ensures slept == (if calls == 0 then 0 else Slept(calls - 1))
    ensures forall k: nat :: k < retries && Settles(responses, retryNotFound, k) ==>
              reply == Settle(responses(k)) && calls == k + 1
    ensures (forall k: nat :: k < retries ==> Retries(responses(k), retryNotFound)) ==>
              && calls == (if retries > 0 then retries else 0)
              && reply == if retries > 0 && retryNotFound && responses(retries - 1) == HttpError(404)
                          then Missing else ReleaseError
  {
    calls, slept := 0, 0;
    var lastIsNotFound := false;
    var attempt := 0;
    while attempt < retries
      invariant 0 <= attempt && (retries > 0 ==> attempt <= retries) && (retries <= 0 ==> attempt == 0)
      invariant calls == attempt
      invariant slept == (if attempt == 0 then 0 else if attempt < retries then Slept(attempt) else Slept(attempt - 1))
      invariant forall j: nat :: j < attempt ==> Retries(responses(j), retryNotFound)
      invariant lastIsNotFound <==> attempt > 0 && responses(attempt - 1) == HttpError(404)
    {
      var response := responses(attempt);
      calls := calls + 1;
      match response {
        case Document(urls) => return Found(urls), calls, slept;
        case NotAnObject => return ReleaseError, calls, slept;
        case OtherStatus(_) => return ReleaseError, calls, slept;
        case Unexpected => return Crashed, calls, slept;
        case HttpError(code) =>
          if code == 404 && !retryNotFound {
            return Missing, calls, slept;
          }
          lastIsNotFound := code == 404;
        case NotJson => lastIsNotFound := false;
        case Transport => lastIsNotFound := false;
      }
      if attempt + 1 < retries {
        slept := slept + Min(PowerOfTwo(attempt), 4);
      }
      attempt := attempt + 1;
    }
    if retryNotFound && lastIsNotFound {
      return Missing, calls, slept;
    }
    return ReleaseError, calls, slept;
  }

  /** The loop's limits: never more requests than asked for, never more than four seconds between two. */
  lemma RetriesAreBounded(retries: nat, calls: nat)
    requires 0 < calls <= retries
    ensures Slept(calls - 1) <= 4 * (retries - 1)
  {
    SleepIsBounded(calls - 1);
  }

  lemma {:induction false} SettlesOrRetries(responses: nat -> Response, retryNotFound: bool, n: nat) returns (k: nat)
    ensures k <= n && (forall j: nat :: j < k ==> Retries(responses(j), retryNotFound))
    ensures k < n ==> Settles(responses, retryNotFound, k)
  {
    if n == 0 {
      k := 0;
    } else {
      k := SettlesOrRetries(responses, retryNotFound, n - 1);
      if k == n - 1 && Retries(responses(k), retryNotFound) { k := n; }
    }
  }

  // ---------------------------------------------------------------------------------------------

  /** Entry `i` names `filename` and is the last to do so. */
  predicate LastFor(urls: seq<Item>, filename: string, i: nat)
  {
    && i < |urls| && Names(urls[i], filename)
    && forall j :: i < j < |urls| ==> !Names(urls[j], filename)
  }

  predicate Names(item: Item, filename: string)
  {
    item.Item? && item.filename == Some(filename) && item.sha256.Some?
  }

  /** The remote digests: where a file is listed twice the later entry counts. */
  ghost predicate IsRemote(urls: seq<Item>, remote: map<string, string>)
  {
    && (forall f, i: nat :: LastFor(urls, f, i) ==> f in remote && remote[f] == urls[i].sha256.value)
    && (forall f :: f in remote ==> exists i: nat :: LastFor(urls, f, i))
  }

  method RemoteDigests(urls: seq<Item>) returns (remote: map<string, string>)
    ensures IsRemote(urls, remote)
  {
    remote := map[];
    for n := 0 to |urls|
      invariant IsRemote(urls[..n], remote)
    {
      var item := urls[n];
      ghost var was := remote;
      if item.Item? && item.filename.Some? && item.sha256.Some? {
        remote := remote[item.filename.value := item.sha256.value];
      }
      NextItem(urls, n, was, remote);
    }
    assert urls[..|urls|] == urls;
  }

  lemma NextItem(urls: seq<Item>, n: nat, was: map<string, string>, remote: map<string, string>)
    requires n < |urls| && IsRemote(urls[..n], was)
    requires remote == if urls[n].Item? && urls[n].filename.Some? && urls[n].sha256.Some?
                       then was[urls[n].filename.value := urls[n].sha256.value] else was
    ensures IsRemote(urls[..n + 1], remote)
  {
    var before, after := urls[..n], urls[..n + 1];
    forall f, i: nat ensures LastFor(after, f, i) <==> if i == n then Names(urls[n], f) else
                               LastFor(before, f, i) && !Names(urls[n], f)
    {
      LastForSnoc(urls, n, f, i);
    }
    assert forall i: nat :: i < n ==> before[i] == after[i];
    hide LastFor;
    forall f | f in remote ensures exists i: nat :: LastFor(after, f, i) {
      if Names(urls[n], f) {
        assert LastFor(after, f, n);
      } else {
        var i: nat :| LastFor(before, f, i);
        BeforeEnd(before, f, i);
        assert LastFor(after, f, i);
      }
    }
    forall f, i: nat | LastFor(after, f, i)
      ensures i < |after| && after[i].Item? && after[i].sha256.Some?
      ensures f in remote && remote[f] == after[i].sha256.value
    {
      BeforeEnd(after, f, i);
    }
  }

  lemma BeforeEnd(urls: seq<Item>, f: string, i: nat)
    requires LastFor(urls, f, i)
    ensures i < |urls| && Names(urls[i], f)
  {}

  lemma LastForSnoc(urls: seq<Item>, n: nat, f: string, i: nat)
    requires n < |urls|
    ensures LastFor(urls[..n + 1], f, i) <==>
            if i == n then Names(urls[n], f) else LastFor(urls[..n], f, i) && !Names(urls[n], f)
  {
    hide Names;
    var before, after := urls[..n], urls[..n + 1];
    assert forall j :: 0 <= j < n ==> before[j] == after[j];
    assert after[n] == urls[n];
  }

  datatype Status = Absent | Identical | Refused | Aborted

  /** The status of a version: absent, identical to the local files, or a reason to stop. */
  method PypiStatus(responses: nat -> Response, retries: int, local: map<string, string>) returns (status: Status)
    ensures status == Absent ==>
              exists k: nat :: k < retries && Settles(responses, false, k) && responses(k) == HttpError(404)
    ensures status == Identical ==>
              exists k: nat :: k < retries && Settles(responses, false, k) && responses(k).Document?
                               && IsRemote(responses(k).urls, local)
    ensures forall k: nat :: k < retries && Settles(responses, false, k) ==>
              && (responses(k) == HttpError(404) ==> status == Absent)
              && (responses(k).Document? ==> (status == Identical <==> IsRemote(responses(k).urls, local)))
  {
    var reply, _, _ := OpenJson(responses, retries, false);
    ghost var k := SettlesOrRetries(responses, false, if retries > 0 then retries else 0);
    assert k < retries ==> Settles(responses, false, k);
    assert forall j: nat :: j < retries && Settles(responses, false, j) ==> j == k by {
      forall j: nat | j < retries && Settles(responses, false, j) ensures j == k {
        assert j < k ==> Retries(responses(j), false);
      }
    }
    match reply {
      case Missing => return Absent;
      case ReleaseError => return Refused;
      case Crashed => return Aborted;
      case Found(urls) =>
        var remote := RemoteDigests(urls);
        RemoteIsUnique(urls, remote, local);
        return if remote == local then Identical else Refused;
    }
  }

  lemma RemoteIsUnique(urls: seq<Item>, one: map<string, string>, two: map<string, string>)
    requires IsRemote(urls, one)
    ensures IsRemote(urls, two) <==> one == two
  {
    if IsRemote(urls, two) {
      forall f | f in one ensures f in two && one[f] == two[f] {
        var i: nat :| LastFor(urls, f, i);
      }
      forall f | f in two ensures f in one {
        var i: nat :| LastFor(urls, f, i);
      }
    }
  }
}
