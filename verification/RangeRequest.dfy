/** A request cut into segments, fetched by the workers and put together again, and the connection each worker
    uses. */
module RangeRequest {
  import opened Wrappers
  import opened Segments
  import Download

  /** The segments of requestImpl: one per index when the minimal size is 1, else at most one per
      connection. An empty response is refused. */
  method PlanSegments(responseSize: nat, minResponseSize: nat, connections: nat) returns (plan: Option<seq<Segment>>)
    requires minResponseSize > 0 && (minResponseSize == 1 || connections > 0)
    ensures plan.None? <==> responseSize == 0
    ensures plan.Some? ==> Covers(plan.value, responseSize) && NoneEmpty(plan.value)
    ensures plan.Some? && minResponseSize == 1 ==>
      |plan.value| == responseSize && forall i: nat :: i < responseSize ==> plan.value[i] == Segment(i, i + 1, i)
    ensures plan.Some? && minResponseSize != 1 ==>
      var count := |plan.value|;
      && count <= connections && (count - 1) * minResponseSize < responseSize
      && (count == connections || responseSize <= count * minResponseSize)
    ensures plan.Some? && minResponseSize <= responseSize ==> forall i: nat :: i + 1 < |plan.value| ==>
      var s := plan.value[i]; s.toByte - s.fromByte >= minResponseSize || s.toByte == responseSize
  {
    if responseSize == 0 { return None; }
    var countSegments :=
      if minResponseSize == 1 then responseSize
      else Min((responseSize + minResponseSize - 1) / minResponseSize, connections);
    CountLeavesRoom(responseSize, minResponseSize, countSegments);
    plan := MakeSegments(countSegments, responseSize, minResponseSize);
    if minResponseSize == 1 { UnitSegments(plan.value, responseSize); }
  }

  lemma CountLeavesRoom(size: nat, minSize: nat, count: nat)
    requires size > 0 && minSize > 0
    requires count <= (size + minSize - 1) / minSize
    ensures (size + minSize - 1) / minSize > 0 && size <= ((size + minSize - 1) / minSize) * minSize
    ensures count > 0 ==> (count - 1) * minSize < size
  {
    var full := (size + minSize - 1) / minSize;
    assert full * minSize <= size + minSize - 1 < full * minSize + minSize;
    if count > 0 {
      assert (full - count) * minSize >= 0;
      assert (count - 1) * minSize == full * minSize - (full - count) * minSize - minSize;
    }
  }

  /** As many non-empty segments as there are indices have one index each. */
  lemma {:induction false} UnitSegments(segments: seq<Segment>, size: nat)
    requires Covers(segments, size) && NoneEmpty(segments) && |segments| == size
    ensures forall i: nat :: i < size ==> segments[i] == Segment(i, i + 1, i)
  {
    forall i: nat | i < size ensures segments[i] == Segment(i, i + 1, i) {
      StartsAtLeast(segments, size, i);
      EndsAtMost(segments, size, i);
    }
  }

  lemma {:induction false} StartsAtLeast(segments: seq<Segment>, size: nat, i: nat)
    requires Covers(segments, size) && NoneEmpty(segments) && i < |segments|
    ensures segments[i].fromByte >= i
  {
    if i > 0 { StartsAtLeast(segments, size, i - 1); }
  }

  lemma {:induction false} EndsAtMost(segments: seq<Segment>, size: nat, i: nat)
    requires Covers(segments, size) && NoneEmpty(segments) && i < |segments|
    ensures segments[i].toByte <= size - (|segments| - 1 - i)
    decreases |segments| - i
  {
    if i + 1 < |segments| { EndsAtMost(segments, size, i + 1); }
  }

  // ----- Putting the answers together -----

  function Join(answers: seq<string>): string {
    if answers == [] then "" else Join(answers[..|answers| - 1]) + answers[|answers| - 1]
  }

  method JoinAnswers(answers: seq<string>) returns (response: string)
    ensures response == Join(answers)
  {
    response := "";
    for i := 0 to |answers|
      invariant response == Join(answers[..i])
    {
      response := response + answers[i];
      assert answers[..i + 1][..i] == answers[..i];
    }
    assert answers[..|answers|] == answers;
  }

  /** Exact answers to consecutive ranges join to the part of the body they cover. */
  lemma {:induction false} ExactAnswersJoin(segments: seq<Segment>, answers: seq<string>, body: string, n: nat)
    requires Covers(segments, |body|) && |answers| == |segments| && 0 < n <= |segments|
    requires forall i: nat :: i < |segments| ==>
      segments[i].toByte <= |body| && answers[i] == body[segments[i].fromByte..segments[i].toByte]
    ensures Join(answers[..n]) == body[..segments[n - 1].toByte]
  {
    assert answers[..n][..n - 1] == answers[..n - 1];
    if n > 1 { ExactAnswersJoin(segments, answers, body, n - 1); }
  }

  lemma {:induction false} SizedAnswersJoin(segments: seq<Segment>, answers: seq<string>, size: nat, n: nat)
    requires Covers(segments, size) && |answers| == |segments| && 0 < n <= |segments|
    requires forall i: nat :: i < |segments| ==> |answers[i]| == segments[i].toByte - segments[i].fromByte
    ensures |Join(answers[..n])| == segments[n - 1].toByte
  {
    assert answers[..n][..n - 1] == answers[..n - 1];
    if n > 1 { SizedAnswersJoin(segments, answers, size, n - 1); }
  }

  lemma {:induction false} EndsInside(segments: seq<Segment>, size: nat, i: nat)
    requires Covers(segments, size) && i < |segments|
    ensures segments[i].toByte <= size
    decreases |segments| - i
  {
    if i + 1 < |segments| { EndsInside(segments, size, i + 1); }
  }

  // ----- From the run to the response -----

  function Values(answers: seq<Option<string>>): seq<string>
    requires forall i: nat :: i < |answers| ==> answers[i].Some?
  {
    seq(|answers|, i requires 0 <= i < |answers| => answers[i].value)
  }

  /** Every success of the run came from a server that gave exactly the range it was asked for. */
  ghost predicate Exact(done: seq<(Segment, string)>, body: string) {
    forall d :: d in done ==> d.0.fromByte <= d.0.toByte <= |body| && d.1 == body[d.0.fromByte..d.0.toByte]
  }

  /** Every success passed the size check of requestFunction. */
  ghost predicate Sized(done: seq<(Segment, string)>) {
    forall d :: d in done ==> |d.1| == d.0.toByte - d.0.fromByte
  }

  /** In every interleaving in which the result is true, answers that are exact ranges of a body join to the
      body, whichever workers gave them and in whatever order; and answers of the size asked for join to a
      response of the size asked for, so the check on the whole response cannot fail. */
  lemma DownloadedIsTheBody(segments: seq<Segment>, size: nat, countWorkers: nat, steps: seq<Download.Step>,
                            body: string)
    requires Covers(segments, size) && Download.Run(segments, countWorkers, steps).Some?
    requires Download.Run(segments, countWorkers, steps).value.countSuccessRequests == |segments|
    ensures var st := Download.Run(segments, countWorkers, steps).value;
      && (forall i: nat :: i < |st.answers| ==> st.answers[i].Some?)
      && (|body| == size && Exact(st.done, body) ==> Join(Values(st.answers)) == body)
      && (Sized(st.done) ==> |Join(Values(st.answers))| == size)
  {
    hide Download.Run;
    Download.ResultIsTrueExactlyWhenComplete(segments, countWorkers, steps);
    var st := Download.Run(segments, countWorkers, steps).value;
    var answers, n := Values(st.answers), |segments|;
    assert answers[..n] == answers;
    forall i: nat | i < n ensures (segments[i], answers[i]) in st.done && segments[i].toByte <= size {
      EndsInside(segments, size, i);
    }
    if Sized(st.done) { SizedAnswersJoin(segments, answers, size, n); }
    if |body| == size && Exact(st.done, body) {
      ExactAnswersJoin(segments, answers, body, n);
    }
  }

  // ----- Connections -----

  /** The workers of `requestServers` that talk to `server`. */
  function ThreadsOf(requestServers: seq<string>, server: string): set<nat> {
    set t: nat | t < |requestServers| && requestServers[t] == server
  }

  /** Which of a server's connections each worker took. */
  class CurlDistribution {
    const requestServers: seq<string>
    var taken: map<string, map<nat, nat>>

    /** Workers of one server hold different connections, numbered from 0 without gaps. */
    ghost predicate Valid()
      reads this
    {
      forall server :: server in taken ==>
        && taken[server].Keys <= ThreadsOf(requestServers, server)
        && Packed(taken[server])
    }

    constructor (requestServers: seq<string>)
      ensures Valid() && this.requestServers == requestServers && taken == map[]
    {
      this.requestServers := requestServers;
      taken := map[];
    }

    /** A worker keeps its connection; a new worker takes the first free one. The connection exists when
        the server has as many as there are workers for it. */
    method IndexInCurls(server: string, threadNumber: nat) returns (index: nat)
      requires Valid() && threadNumber in ThreadsOf(requestServers, server)
      modifies this
      ensures Valid() && server in taken && threadNumber in taken[server] && taken[server][threadNumber] == index
      ensures index < |ThreadsOf(requestServers, server)|
      ensures forall t :: t in taken[server] && t != threadNumber ==> taken[server][t] != index
      ensures server in old(taken) && threadNumber in old(taken)[server] ==> taken == old(taken)
      ensures forall s, t :: s in old(taken) && t in old(taken)[s] ==>
        s in taken && t in taken[s] && taken[s][t] == old(taken)[s][t]
    {
      if server !in taken { taken := taken[server := map[]]; }
      var curlDist := taken[server];
      if threadNumber !in curlDist {
        PackedMore(curlDist, threadNumber);
        curlDist := curlDist[threadNumber := |curlDist|];
        taken := taken[server := curlDist];
      }
      index := taken[server][threadNumber];
      SubsetSize(taken[server].Keys, ThreadsOf(requestServers, server));
    }
  }

  ghost predicate Packed(m: map<nat, nat>) {
    && (forall t :: t in m ==> m[t] < |m|)
    && forall t, u :: t in m && u in m && t != u ==> m[t] != m[u]
  }

  lemma PackedMore(m: map<nat, nat>, t: nat)
    requires Packed(m) && t !in m
    ensures Packed(m[t := |m|]) && |m[t := |m|]| == |m| + 1
  {
    var m' := m[t := |m|];
    assert m'.Keys == m.Keys + {t};
    assert |m'| == |m'.Keys| == |m| + 1;
  }

  lemma {:induction false} SubsetSize<T>(a: set<T>, b: set<T>)
    requires a <= b
    ensures |a| <= |b|
  {
    assert b == a + (b - a);
  }

  /** getServersList: every server once per connection. */
  function ServersList(servers: seq<string>, countConnections: nat): seq<string> {
    if countConnections == 0 then [] else ServersList(servers, countConnections - 1) + servers
  }

  /** A server hinted once has exactly as many workers as connections. */
  lemma {:induction false} WorkersPerServer(servers: seq<string>, countConnections: nat, server: string)
    ensures |ThreadsOf(ServersList(servers, countConnections), server)| == countConnections * multiset(servers)[server]
  {
    if countConnections > 0 {
      var front := ServersList(servers, countConnections - 1);
      WorkersPerServer(servers, countConnections - 1, server);
      ThreadsOfBoth(front, servers, server);
      ThreadsAreOccurrences(servers, server);
      assert countConnections * multiset(servers)[server]
        == (countConnections - 1) * multiset(servers)[server] + multiset(servers)[server];
    } else {
      assert ThreadsOf([], server) == {};
    }
  }

  lemma {:induction false} ThreadsOfBoth(a: seq<string>, b: seq<string>, server: string)
    ensures |ThreadsOf(a + b, server)| == |ThreadsOf(a, server)| + |ThreadsOf(b, server)|
  {
    if b == [] {
      assert a + b == a;
      assert ThreadsOf(b, server) == {};
    } else {
      var n := |b| - 1;
      ThreadsOfBoth(a, b[..n], server);
      assert a + b == (a + b[..n]) + [b[n]];
      ThreadsMore(a + b[..n], b[n], server);
      assert b == b[..n] + [b[n]];
      ThreadsMore(b[..n], b[n], server);
    }
  }

  lemma ThreadsMore(a: seq<string>, s: string, server: string)
    ensures |ThreadsOf(a + [s], server)| == |ThreadsOf(a, server)| + if s == server then 1 else 0
  {
    assert ThreadsOf(a + [s], server) == ThreadsOf(a, server) + if s == server then {|a|} else {};
  }

  lemma {:induction false} ThreadsAreOccurrences(a: seq<string>, server: string)
    ensures |ThreadsOf(a, server)| == multiset(a)[server]
  {
    if a == [] {
      assert ThreadsOf(a, server) == {};
    } else {
      var n := |a| - 1;
      ThreadsAreOccurrences(a[..n], server);
      assert a == a[..n] + [a[n]];
      ThreadsMore(a[..n], a[n], server);
    }
  }
}
