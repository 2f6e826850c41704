/** The JSON-RPC client: request ids, batches whose replies come back in any order, and retry with
    capped exponential backoff. */
module Rpc {
  import opened Bytes

  /** An error object; its fields may be missing. */
  datatype ErrorData = ErrorData(code: Option<int>, message: Option<string>)

  /** A reply object: `id` if it carries an integer one, and an error if it carries one. */
  datatype Reply = Reply(id: Option<int>, result: string, error: Option<ErrorData>)

  // ----- Batches -----

  /** `r.get("id", 0)` */
  function SortKey(r: Reply): int {
    if r.id.Some? then r.id.value else 0
  }

  predicate Sorted(replies: seq<Reply>) {
    forall i, j :: 0 <= i < j < |replies| ==> SortKey(replies[i]) <= SortKey(replies[j])
  }

  /** Insert behind every reply whose key is not larger: the sort is stable. */
  function Insert(r: Reply, sorted: seq<Reply>): seq<Reply> {
    if sorted == [] || SortKey(sorted[|sorted| - 1]) <= SortKey(r) then sorted + [r]
    else Insert(r, sorted[..|sorted| - 1]) + [sorted[|sorted| - 1]]
  }

  /** `results.sort(key=lambda r: r.get("id", 0))` */
  function SortById(replies: seq<Reply>): seq<Reply> {
    if replies == [] then [] else Insert(replies[|replies| - 1], SortById(replies[..|replies| - 1]))
  }

  lemma {:induction false} InsertKeeps(r: Reply, sorted: seq<Reply>)
    ensures multiset(Insert(r, sorted)) == multiset(sorted) + multiset{r}
    ensures forall x :: x in Insert(r, sorted) <==> x in sorted || x == r
  {
    if sorted != [] {
      var before, last := sorted[..|sorted| - 1], sorted[|sorted| - 1];
      InsertKeeps(r, before);
      assert sorted == before + [last];
    }
  }

  lemma {:induction false} InsertSorts(r: Reply, sorted: seq<Reply>)
    requires Sorted(sorted)
    ensures Sorted(Insert(r, sorted))
  {
    if sorted != [] && SortKey(sorted[|sorted| - 1]) > SortKey(r) {
      var before, last := sorted[..|sorted| - 1], sorted[|sorted| - 1];
      InsertSorts(r, before);
      InsertKeeps(r, before);
      var inserted := Insert(r, before);
      forall i | 0 <= i < |inserted| ensures SortKey(inserted[i]) <= SortKey(last) {
        assert inserted[i] in inserted;
      }
    }
  }

  lemma {:induction false} SortSorts(replies: seq<Reply>)
    ensures Sorted(SortById(replies))
    ensures multiset(SortById(replies)) == multiset(replies)
  {
    if replies != [] {
      var before, last := replies[..|replies| - 1], replies[|replies| - 1];
      SortSorts(before);
      InsertSorts(last, SortById(before));
      InsertKeeps(last, SortById(before));
      assert replies == before + [last];
    }
  }

  /** The replies with one key, in order. */
  function WithKey(replies: seq<Reply>, key: int): seq<Reply> {
    if replies == [] then []
    else
      var last := replies[|replies| - 1];
      WithKey(replies[..|replies| - 1], key) + (if SortKey(last) == key then [last] else [])
  }

  lemma WithKeyLast(replies: seq<Reply>, last: Reply, key: int)
    ensures WithKey(replies + [last], key) == WithKey(replies, key) + (if SortKey(last) == key then [last] else [])
  {
    assert (replies + [last])[..|replies|] == replies;
  }

  lemma {:induction false} InsertIsStable(r: Reply, sorted: seq<Reply>, key: int)
    ensures WithKey(Insert(r, sorted), key) == WithKey(sorted, key) + (if SortKey(r) == key then [r] else [])
  {
    if sorted == [] || SortKey(sorted[|sorted| - 1]) <= SortKey(r) {
      WithKeyLast(sorted, r, key);
    } else {
      var before, last := sorted[..|sorted| - 1], sorted[|sorted| - 1];
      InsertIsStable(r, before, key);
      assert sorted == before + [last] && Insert(r, sorted) == Insert(r, before) + [last];
      WithKeyLast(before, last, key);
      WithKeyLast(Insert(r, before), last, key);
    }
  }

  /** Replies with the same key keep the order they arrived in. */
  lemma {:induction false} SortIsStable(replies: seq<Reply>, key: int)
    ensures WithKey(SortById(replies), key) == WithKey(replies, key)
  {
    if replies != [] {
      var before, last := replies[..|replies| - 1], replies[|replies| - 1];
      SortIsStable(before, key);
      InsertIsStable(last, SortById(before), key);
    }
  }

  /** The id a reply is sorted by: its own, or 0 if it has none. */
  predicate HasId(r: Reply, id: int) {
    r.id == Some(id) || (r.id == None && id == 0)
  }

  lemma SortedByIds(replies: seq<Reply>, i: nat, j: nat, a: int, b: int)
    requires i < j < |SortById(replies)| && HasId(SortById(replies)[i], a) && HasId(SortById(replies)[j], b)
    ensures a <= b
  {
    SortSorts(replies);
    assert SortKey(SortById(replies)[i]) == a && SortKey(SortById(replies)[j]) == b;
  }

  predicate StrictlySorted(replies: seq<Reply>) {
    forall i, j :: 0 <= i < j < |replies| ==> SortKey(replies[i]) < SortKey(replies[j])
  }

  lemma LastIsSame(a: seq<Reply>, b: seq<Reply>)
    requires a != [] && |a| == |b| && Sorted(a) && StrictlySorted(b)
    requires a[|a| - 1] in b && b[|b| - 1] in a
    ensures a[|a| - 1] == b[|b| - 1]
  {
    var n := |a|;
    var i :| 0 <= i < n && b[i] == a[n - 1];
    var j :| 0 <= j < n && a[j] == b[n - 1];
    assert SortKey(a[j]) <= SortKey(a[n - 1]);
    assert SortKey(b[i]) <= SortKey(b[n - 1]);
  }

  lemma SameReplies(a: seq<Reply>, b: seq<Reply>)
    requires multiset(a) == multiset(b)
    ensures |a| == |b| && forall x :: x in a <==> x in b
  {
    assert |multiset(a)| == |a| && |multiset(b)| == |b|;
    assert forall x :: x in a <==> x in multiset(a);
    assert forall x :: x in b <==> x in multiset(b);
  }

  lemma DropLast(a: seq<Reply>, b: seq<Reply>)
    requires multiset(a) == multiset(b) && a != [] && b != [] && a[|a| - 1] == b[|b| - 1]
    ensures multiset(a[..|a| - 1]) == multiset(b[..|b| - 1])
  {
    var before, before', last := a[..|a| - 1], b[..|b| - 1], a[|a| - 1];
    assert a == before + [last] && b == before' + [last];
    assert multiset(before) + multiset{last} == multiset(before') + multiset{last};
    forall x ensures multiset(before)[x] == multiset(before')[x] {
      assert (multiset(before) + multiset{last})[x] == (multiset(before') + multiset{last})[x];
    }
  }

  /** Strictly ordered replies are determined by which replies they are. */
  lemma {:induction false} OrderIsUnique(a: seq<Reply>, b: seq<Reply>)
    requires multiset(a) == multiset(b) && Sorted(a) && StrictlySorted(b)
    ensures a == b
    decreases |a|
  {
    SameReplies(a, b);
    if a != [] {
      LastIsSame(a, b);
      DropLast(a, b);
      var before, before' := a[..|a| - 1], b[..|b| - 1];
      OrderIsUnique(before, before');
      assert a == before + [a[|a| - 1]] && b == before' + [b[|b| - 1]];
    }
  }

  /** The replies to requests `first+1 .. first+n` that the server gave, in request order: `answered`
      says which requests got one, `reply` what it was. */
  function InOrder(first: int, n: nat, answered: set<int>, reply: int -> Reply): seq<Reply> {
    if n == 0 then []
    else if first + n in answered then InOrder(first, n - 1, answered, reply) + [reply(first + n)]
    else InOrder(first, n - 1, answered, reply)
  }

  lemma {:induction false} InOrderAscends(first: int, n: nat, answered: set<int>, reply: int -> Reply)
    requires forall id :: first < id <= first + n ==> reply(id).id == Some(id)
    ensures var rs := InOrder(first, n, answered, reply);
            && (forall i :: 0 <= i < |rs| ==> rs[i].id.Some? && first < rs[i].id.value <= first + n
                                              && rs[i].id.value in answered && rs[i] == reply(rs[i].id.value))
            && StrictlySorted(rs)
  {
    if n > 0 {
      InOrderAscends(first, n - 1, answered, reply);
      if first + n in answered {
        var before, rs := InOrder(first, n - 1, answered, reply), InOrder(first, n, answered, reply);
        assert rs == before + [reply(first + n)];
        forall i, j | 0 <= i < j < |rs| ensures SortKey(rs[i]) < SortKey(rs[j]) {
          assert rs[i] == before[i];
        }
      }
    }
  }

  /** Order restoration: whatever order the replies arrive in, sorting gives the request-order
      subsequence of those that did arrive. */
  lemma BatchRestoresOrder(first: int, n: nat, answered: set<int>, reply: int -> Reply, arrived: seq<Reply>)
    requires first >= 0
    requires forall id :: first < id <= first + n ==> reply(id).id == Some(id)
    requires multiset(arrived) == multiset(InOrder(first, n, answered, reply))
    ensures SortById(arrived) == InOrder(first, n, answered, reply)
  {
    SortSorts(arrived);
    InOrderAscends(first, n, answered, reply);
    OrderIsUnique(SortById(arrived), InOrder(first, n, answered, reply));
  }

  lemma {:induction false} FullAnswers(first: int, n: nat, answered: set<int>, reply: int -> Reply, k: nat)
    requires k <= n && forall id :: first < id <= first + k ==> id in answered
    requires forall id :: first + k < id <= first + n ==> id !in answered
    ensures |InOrder(first, n, answered, reply)| == k
    ensures forall i :: 0 <= i < k ==> InOrder(first, n, answered, reply)[i] == reply(first + 1 + i)
  {
    if n > k {
      FullAnswers(first, n - 1, answered, reply, k);
    } else if n > 0 {
      FullAnswers(first, n - 1, answered, reply, k - 1);
    }
  }

  /** Position `i` of the result answers request `i`, for every position. */
  ghost predicate Aligned(first: int, replies: seq<Reply>) {
    forall i :: 0 <= i < |replies| ==> replies[i].id == Some(first + 1 + i)
  }

  ghost predicate AnsweredPrefix(first: int, n: nat, answered: set<int>) {
    forall id, id' :: first < id < id' <= first + n && id' in answered ==> id in answered
  }

  /** The documented "responses in order" holds position by position exactly when the requests left
      unanswered are at the end of the batch; a reply missing earlier shifts every later one. */
  lemma AlignedExactly(first: int, n: nat, answered: set<int>, reply: int -> Reply, arrived: seq<Reply>)
    requires first >= 0
    requires forall id :: first < id <= first + n ==> reply(id).id == Some(id)
    requires multiset(arrived) == multiset(InOrder(first, n, answered, reply))
    ensures Aligned(first, SortById(arrived)) <==> AnsweredPrefix(first, n, answered)
  {
    BatchRestoresOrder(first, n, answered, reply, arrived);
    AlignedInOrder(first, n, answered, reply);
  }

  lemma {:induction false} AlignedInOrder(first: int, n: nat, answered: set<int>, reply: int -> Reply)
    requires forall id :: first < id <= first + n ==> reply(id).id == Some(id)
    ensures Aligned(first, InOrder(first, n, answered, reply)) <==> AnsweredPrefix(first, n, answered)
    ensures |InOrder(first, n, answered, reply)| <= n
    ensures |InOrder(first, n, answered, reply)| == n <==> forall id :: first < id <= first + n ==> id in answered
  {
    if n > 0 {
      AlignedInOrder(first, n - 1, answered, reply);
      var before, rs := InOrder(first, n - 1, answered, reply), InOrder(first, n, answered, reply);
      if first + n in answered {
        assert rs[|before|].id == Some(first + n);
        assert Aligned(first, rs) <==> Aligned(first, before) && |before| == n - 1 by {
          assert forall i :: 0 <= i < |before| ==> rs[i] == before[i];
        }
      }
    }
  }

  // ----- Retry -----

  /** One post: a connection, read or timeout error; any other exception; or a reply. */
  datatype Outcome = NetworkError | OtherError | Answer(reply: Reply)

  datatype Policy = Policy(maxRetries: int, base: real, max: real, codes: set<int>)

  datatype SendResult = Returned(reply: Reply) | ConnectionError | Raised

  /** The outcome leads to another attempt if one is left. */
  predicate Retryable(policy: Policy, outcome: Outcome) {
    match outcome
    case NetworkError => true
    case OtherError => false
    case Answer(reply) =>
      reply.error.Some? && (if reply.error.value.code.Some? then reply.error.value.code.value else 0) in policy.codes
  }

  function Pow2(n: nat): (p: real)
    ensures p >= 1.0
  {
    if n == 0 then 1.0 else 2.0 * Pow2(n - 1)
  }

  /** `base * 2^k`, by doubling. */
  function Doubled(base: real, k: nat): real {
    if k == 0 then base else 2.0 * Doubled(base, k - 1)
  }

  lemma {:induction false} DoubledIsProduct(base: real, k: nat)
    ensures Doubled(base, k) == base * Pow2(k)
    ensures base >= 0.0 ==> Doubled(base, k) >= 0.0
  {
    if k > 0 {
      DoubledIsProduct(base, k - 1);
      assert 2.0 * (base * Pow2(k - 1)) == base * (2.0 * Pow2(k - 1));
    }
  }

  /** `min(base * 2^attempt, max)` */
  function Delay(policy: Policy, attempt: nat): real {
    var d := Doubled(policy.base, attempt);
    if policy.max < d then policy.max else d
  }

  /** The sleeps after `n` failed attempts. */
  function Delays(policy: Policy, n: nat): (sleeps: seq<real>)
    ensures |sleeps| == n
  {
    if n == 0 then [] else Delays(policy, n - 1) + [Delay(policy, n - 1)]
  }

  /** All but the last of the posts were retryable, and the last ended the loop. */
  ghost predicate Posted(policy: Policy, outcomes: nat -> Outcome, posts: nat, result: SendResult) {
    && (posts == 0 <==> policy.maxRetries < 0)
    && posts <= (if policy.maxRetries < 0 then 0 else policy.maxRetries + 1)
    && (forall i :: 0 <= i < posts - 1 ==> Retryable(policy, outcomes(i)))
    && (posts == 0 ==> result.ConnectionError?)
    && (posts > 0 ==>
          && (posts == policy.maxRetries + 1 || !Retryable(policy, outcomes(posts - 1)))
          && result == match outcomes(posts - 1)
                       case NetworkError => ConnectionError
                       case OtherError => Raised
                       case Answer(reply) => Returned(reply))
  }

  /** A failure another attempt may cure: a network error, or an error reply with a listed code, 0 if it has
      none. */
  predicate Transient(codes: set<int>, outcome: Outcome) {
    || outcome.NetworkError?
    || (outcome.Answer? && outcome.reply.error.Some?
        && ((outcome.reply.error.value.code == None && 0 in codes)
            || exists code :: code in codes && outcome.reply.error.value.code == Some(code)))
  }

  lemma RetryableExactly(policy: Policy, outcome: Outcome)
    ensures Retryable(policy, outcome) <==> Transient(policy.codes, outcome)
  {
  }

  /** Attempt `i` sleeps the lesser of `base * 2^i` and `max`. */
  ghost predicate Backoff(base: real, max: real, sleeps: seq<real>) {
    forall i :: 0 <= i < |sleeps| ==> LesserOf(sleeps[i], max, base * Pow2(i))
  }

  predicate LesserOf(x: real, a: real, b: real) {
    x <= a && x <= b && (x == a || x == b)
  }

  lemma DelayIsLesser(policy: Policy, i: nat)
    ensures LesserOf(Delay(policy, i), policy.max, policy.base * Pow2(i))
  {
    DoubledIsProduct(policy.base, i);
  }

  lemma DelaysBackOff(policy: Policy, n: nat)
    ensures Backoff(policy.base, policy.max, Delays(policy, n))
  {
    forall i | 0 <= i < n ensures LesserOf(Delays(policy, n)[i], policy.max, policy.base * Pow2(i)) {
      DelaysAt(policy, n, i);
      DelayIsLesser(policy, i);
    }
  }

  lemma DelaysAllBackOff(policy: Policy)
    ensures forall n: nat :: Backoff(policy.base, policy.max, Delays(policy, n))
  {
    forall n: nat ensures Backoff(policy.base, policy.max, Delays(policy, n)) {
      DelaysBackOff(policy, n);
    }
  }

  lemma TransientExactly(policy: Policy, outcomes: nat -> Outcome)
    ensures forall i: nat :: Retryable(policy, outcomes(i)) <==> Transient(policy.codes, outcomes(i))
  {
    forall i: nat ensures Retryable(policy, outcomes(i)) <==> Transient(policy.codes, outcomes(i)) {
      RetryableExactly(policy, outcomes(i));
    }
  }

  /** Posts go on exactly while the failure is transient and an attempt is left, with a sleep after each but
      the last; the last outcome is the result. */
  method SendWithRetry(policy: Policy, outcomes: nat -> Outcome) returns (result: SendResult, posts: nat,
      sleeps: seq<real>)
    ensures Posted(policy, outcomes, posts, result)
    ensures sleeps == Delays(policy, if posts == 0 then 0 else posts - 1)
    ensures Backoff(policy.base, policy.max, sleeps) && |sleeps| == if posts == 0 then 0 else posts - 1
    ensures forall i :: 0 <= i < posts - 1 ==> Transient(policy.codes, outcomes(i))
    ensures 0 < posts <= policy.maxRetries ==> !Transient(policy.codes, outcomes(posts - 1))
    ensures posts > 0 ==>
              match result
              case Returned(reply) => outcomes(posts - 1) == Answer(reply)
              case ConnectionError => posts == policy.maxRetries + 1 && outcomes(posts - 1) == NetworkError
              case Raised => outcomes(posts - 1) == OtherError
  {
    TransientExactly(policy, outcomes);
    DelaysAllBackOff(policy);
    posts, sleeps := 0, [];
    var attempt := 0;
    while attempt < policy.maxRetries + 1
      invariant 0 <= attempt && (attempt <= policy.maxRetries + 1 || attempt == 0)
      invariant posts == attempt
      invariant forall i :: 0 <= i < attempt ==> Retryable(policy, outcomes(i))
      invariant attempt == policy.maxRetries + 1 > 0 ==> outcomes(attempt - 1).NetworkError?
      invariant sleeps == Delays(policy, if 0 < attempt == policy.maxRetries + 1 then attempt - 1 else attempt)
      decreases policy.maxRetries + 1 - attempt
    {
      var outcome := outcomes(attempt);
      posts := posts + 1;
      match outcome {
        case OtherError =>
          return Raised, posts, sleeps;
        case Answer(reply) =>
          if attempt < policy.maxRetries && Retryable(policy, outcome) {
            sleeps := sleeps + [Delay(policy, attempt)];
          } else {
            return Returned(reply), posts, sleeps;
          }
        case NetworkError =>
          if attempt < policy.maxRetries {
            sleeps := sleeps + [Delay(policy, attempt)];
          }
      }
      attempt := attempt + 1;
    }
    result := ConnectionError;
  }

  /** The posts and the result are determined by the outcomes: nothing is retried too little or too
      much. */
  lemma PostedIsUnique(policy: Policy, outcomes: nat -> Outcome, posts: nat, result: SendResult, posts': nat,
      result': SendResult)
    requires Posted(policy, outcomes, posts, result) && Posted(policy, outcomes, posts', result')
    ensures posts == posts' && result == result'
  {
    if posts > 0 && posts' > 0 {
      var k: nat := (if posts < posts' then posts else posts') - 1;
      assert posts != posts' ==> Retryable(policy, outcomes(k));
    }
  }

  /** A request fails with ConnectionError exactly when every attempt before the last was retryable and
      the last was a network failure (or no attempt is allowed at all). */
  lemma ConnectionErrorExactly(policy: Policy, outcomes: nat -> Outcome, posts: nat, result: SendResult)
    requires Posted(policy, outcomes, posts, result)
    ensures result.ConnectionError? <==>
            policy.maxRetries < 0 ||
            (outcomes(policy.maxRetries).NetworkError? && forall i :: 0 <= i < policy.maxRetries ==>
              Retryable(policy, outcomes(i)))
  {
    if policy.maxRetries >= 0 && posts <= policy.maxRetries {
      assert !Retryable(policy, outcomes(posts - 1));
    }
  }

  function Total(sleeps: seq<real>): real {
    if sleeps == [] then 0.0 else Total(sleeps[..|sleeps| - 1]) + sleeps[|sleeps| - 1]
  }

  /** `k` capped delays. */
  function Capped(max: real, k: nat): real {
    if k == 0 then 0.0 else Capped(max, k - 1) + max
  }

  lemma {:induction false} CappedIsProduct(max: real, k: nat)
    ensures Capped(max, k) == max * k as real
  {
    if k > 0 {
      CappedIsProduct(max, k - 1);
      assert max * (k - 1) as real + max == max * ((k - 1) as real + 1.0);
    }
  }

  /** A sum whose k-th term is at most `base * 2^k`, and at most `max`. */
  lemma {:induction false} SumIsBounded(sleeps: seq<real>, base: real, max: real)
    requires forall i :: 0 <= i < |sleeps| ==> sleeps[i] <= Doubled(base, i) && sleeps[i] <= max
    ensures Total(sleeps) <= Doubled(base, |sleeps|) - base
    ensures Total(sleeps) <= Capped(max, |sleeps|)
  {
    if sleeps != [] {
      var n := |sleeps| - 1;
      SumIsBounded(sleeps[..n], base, max);
      assert sleeps[n] <= Doubled(base, n);
    }
  }

  lemma {:induction false} BoundsGrow(base: real, max: real, m: nat, n: nat)
    requires m <= n && base >= 0.0 && max >= 0.0
    ensures 0.0 <= Doubled(base, m) <= Doubled(base, n) && Capped(max, m) <= Capped(max, n)
  {
    DoubledIsProduct(base, m);
    if m < n {
      BoundsGrow(base, max, m, n - 1);
    }
  }

  lemma {:induction false} DelaysAt(policy: Policy, n: nat, i: nat)
    requires i < n
    ensures Delays(policy, n)[i] == Delay(policy, i)
  {
    if i < n - 1 {
      DelaysAt(policy, n - 1, i);
    }
  }

  /** Backoff never shortens. */
  lemma DelaysGrow(policy: Policy, i: nat)
    requires policy.base >= 0.0
    ensures Delay(policy, i) <= Delay(policy, i + 1)
  {
    DoubledIsProduct(policy.base, i);
  }

  lemma SleepsGrow(policy: Policy, n: nat, i: nat)
    requires policy.base >= 0.0 && 0 < i < n
    ensures Delays(policy, n)[i - 1] <= Delays(policy, n)[i]
  {
    DelaysAt(policy, n, i - 1);
    DelaysAt(policy, n, i);
    DelaysGrow(policy, i - 1);
  }

  /** The time asleep in one request of at most `r` retries is at most `base * (2^r - 1)`. */
  lemma SleepIsBounded(policy: Policy, n: nat, r: nat)
    requires policy.base >= 0.0 && policy.max >= 0.0 && n <= r
    ensures Total(Delays(policy, n)) <= policy.base * Pow2(r) - policy.base
  {
    DelayTotals(policy, n, r);
    DoubledIsProduct(policy.base, r);
  }

  /** ... and at most `r * max`. */
  lemma SleepIsCapped(policy: Policy, n: nat, r: nat)
    requires policy.base >= 0.0 && policy.max >= 0.0 && n <= r
    ensures Total(Delays(policy, n)) <= policy.max * r as real
  {
    DelayTotals(policy, n, r);
    CappedIsProduct(policy.max, r);
  }

  lemma DelayTotals(policy: Policy, n: nat, r: nat)
    requires policy.base >= 0.0 && policy.max >= 0.0 && n <= r
    ensures Total(Delays(policy, n)) <= Doubled(policy.base, r) - policy.base
    ensures Total(Delays(policy, n)) <= Capped(policy.max, r)
  {
    DelaysAreBounded(policy, n);
    TotalWithin(Delays(policy, n), policy.base, policy.max, r);
  }

  lemma TotalWithin(sleeps: seq<real>, base: real, max: real, r: nat)
    requires base >= 0.0 && max >= 0.0 && |sleeps| <= r
    requires forall i :: 0 <= i < |sleeps| ==> sleeps[i] <= Doubled(base, i) && sleeps[i] <= max
    ensures Total(sleeps) <= Doubled(base, r) - base && Total(sleeps) <= Capped(max, r)
  {
    SumIsBounded(sleeps, base, max);
    BoundsGrow(base, max, |sleeps|, r);
  }

  lemma DelaysAreBounded(policy: Policy, n: nat)
    ensures forall i :: 0 <= i < n ==>
            Delays(policy, n)[i] <= Doubled(policy.base, i) && Delays(policy, n)[i] <= policy.max
  {
    forall i | 0 <= i < n
      ensures Delays(policy, n)[i] <= Doubled(policy.base, i) && Delays(policy, n)[i] <= policy.max
    {
      DelaysAt(policy, n, i);
    }
  }

  // ----- The client -----

  datatype Response = Response(id: int, result: string, error: Option<(int, string)>)

  function ParseResponse(r: Reply): Response {
    Response(SortKey(r), r.result,
             match r.error
             case None => None
             case Some(e) => Some((if e.code.Some? then e.code.value else -1,
                                   if e.message.Some? then e.message.value else "unknown")))
  }

  /** `response` carries what the reply `r` holds: a missing id is 0, a missing code -1, a missing message
      "unknown". */
  predicate Carries(response: Response, r: Reply) {
    && (r.id == Some(response.id) || (r.id == None && response.id == 0))
    && response.result == r.result
    && (response.error.None? <==> r.error.None?)
    && (r.error.Some? ==>
          && (r.error.value.code == Some(response.error.value.0)
              || (r.error.value.code == None && response.error.value.0 == -1))
          && (r.error.value.message == Some(response.error.value.1)
              || (r.error.value.message == None && response.error.value.1 == "unknown")))
  }

  lemma ParsedCarries(r: Reply)
    ensures Carries(ParseResponse(r), r)
  {
  }

  function ParseAll(replies: seq<Reply>): seq<Response> {
    seq(|replies|, i requires 0 <= i < |replies| => ParseResponse(replies[i]))
  }

  /** What a server posts back for a batch: a list, or a single object such as an error. */
  datatype BatchBody = Many(replies: seq<Reply>) | Single(reply: Reply)

  function Ids(first: int, n: nat): seq<int> {
    seq(n, i => first + 1 + i)
  }

  class Client {
    var requestId: nat
    ghost var issued: seq<int>

    ghost predicate Valid()
      reads this
    {
      issued == Ids(0, requestId)
    }

    constructor ()
      ensures Valid() && issued == []
    {
      requestId, issued := 0, [];
    }

    method NextId() returns (id: int)
      requires Valid()
      modifies this
      ensures Valid() && issued == old(issued) + [id]
      ensures id == requestId == old(requestId) + 1 && id !in old(issued)
    {
      requestId := requestId + 1;
      id := requestId;
      issued := issued + [id];
    }

    /** A batch takes fresh consecutive ids in request order and returns the parsed replies sorted by id,
        whatever the server makes of the ids. If some requests were answered, in any order, it returns their
        replies in request order; if all were, position `i` answers request `i`. */
    method Batch(names: seq<string>, serve: seq<int> -> BatchBody) returns (responses: seq<Response>)
      requires Valid()
      modifies this
      ensures Valid() && issued == old(issued) + Ids(old(requestId), |names|)
      ensures responses == match serve(Ids(old(requestId), |names|))
                           case Many(replies) => ParseAll(SortById(replies))
                           case Single(reply) => [ParseResponse(reply)]
      ensures forall reply, answered, arrived ::
                serve(Ids(old(requestId), |names|)) == Many(arrived)
                && Answers(old(requestId), |names|, answered, reply, arrived) ==>
                  responses == ParseAll(InOrder(old(requestId), |names|, answered, reply))
      ensures forall reply, arrived ::
                serve(Ids(old(requestId), |names|)) == Many(arrived)
                && Answers(old(requestId), |names|, AllIds(old(requestId), |names|), reply, arrived) ==>
                  InRequestOrder(old(requestId), |names|, reply, responses)
      ensures serve(Ids(old(requestId), |names|)).Single? ==>
                |responses| == 1 && Carries(responses[0], serve(Ids(old(requestId), |names|)).reply)
    {
      var ids: seq<int> := [];
      for i := 0 to |names|
        invariant Valid() && requestId == old(requestId) + i
        invariant ids == Ids(old(requestId), i)
        invariant issued == old(issued) + ids
      {
        var id := NextId();
        ids := ids + [id];
        assert ids == Ids(old(requestId), i + 1);
      }
      var results: seq<Reply>;
      match serve(ids) {
        case Many(replies) => results := SortById(replies);
        case Single(reply) => results := [reply];
      }
      responses := ParseAll(results);
      BatchInOrder(old(requestId), |names|, serve(ids));
    }
  }

  /** No id is used twice, in any run of single and batch calls. */
  lemma IdsAreUnique(client: Client)
    requires client.Valid()
    ensures forall i, j :: 0 <= i < j < |client.issued| ==> client.issued[i] != client.issued[j]
  {
  }

  function AllIds(first: int, n: nat): (ids: set<int>)
    ensures forall id :: id in ids <==> first < id <= first + n
  {
    if n == 0 then {} else AllIds(first, n - 1) + {first + n}
  }

  function Replies(first: int, n: nat, reply: int -> Reply): seq<Reply> {
    seq(n, i requires 0 <= i => reply(first + 1 + i))
  }

  lemma AllInOrder(first: int, n: nat, reply: int -> Reply)
    ensures InOrder(first, n, AllIds(first, n), reply) == Replies(first, n, reply)
  {
    FullAnswers(first, n, AllIds(first, n), reply, n);
  }

  /** Position `i` answers request `i`. */
  ghost predicate InRequestOrder(first: int, n: nat, reply: int -> Reply, responses: seq<Response>) {
    && |responses| == n
    && forall i :: 0 <= i < n ==> Carries(responses[i], reply(first + 1 + i)) && responses[i].id == first + 1 + i
  }

  /** `arrived` holds the server's `reply` to each answered id, in any order. */
  ghost predicate Answers(first: int, n: nat, answered: set<int>, reply: int -> Reply, arrived: seq<Reply>) {
    && (forall id :: first < id <= first + n ==> reply(id).id == Some(id))
    && multiset(arrived) == multiset(InOrder(first, n, answered, reply))
  }

  /** End to end: a batch whose requests were all answered, in any order, returns at position `i` the
      parsed reply to request `i`. */
  lemma BatchEndToEnd(first: nat, n: nat, reply: int -> Reply, arrived: seq<Reply>)
    requires Answers(first, n, AllIds(first, n), reply, arrived)
    ensures ParseAll(SortById(arrived)) == ParseAll(Replies(first, n, reply))
    ensures |ParseAll(SortById(arrived))| == n
    ensures forall i :: 0 <= i < n ==> ParseAll(SortById(arrived))[i] == ParseResponse(reply(first + 1 + i))
    ensures InRequestOrder(first, n, reply, ParseAll(SortById(arrived)))
  {
    AllInOrder(first, n, reply);
    BatchRestoresOrder(first, n, AllIds(first, n), reply, arrived);
    ParsedReplies(first, n, reply);
  }

  lemma ParsedReplies(first: nat, n: nat, reply: int -> Reply)
    ensures |ParseAll(Replies(first, n, reply))| == n
    ensures forall i :: 0 <= i < n ==> ParseAll(Replies(first, n, reply))[i] == ParseResponse(reply(first + 1 + i))
  {
  }

  lemma BatchInOrder(first: nat, n: nat, body: BatchBody)
    ensures forall reply, answered, arrived ::
              body == Many(arrived) && Answers(first, n, answered, reply, arrived) ==>
                SortById(arrived) == InOrder(first, n, answered, reply)
    ensures forall reply, arrived ::
              body == Many(arrived) && Answers(first, n, AllIds(first, n), reply, arrived) ==>
                InRequestOrder(first, n, reply, ParseAll(SortById(arrived)))
    ensures body.Single? ==> Carries(ParseResponse(body.reply), body.reply)
  {
    forall reply, answered, arrived | body == Many(arrived) && Answers(first, n, answered, reply, arrived)
      ensures SortById(arrived) == InOrder(first, n, answered, reply)
    {
      BatchRestoresOrder(first, n, answered, reply, arrived);
    }
    forall reply, arrived | body == Many(arrived) && Answers(first, n, AllIds(first, n), reply, arrived)
      ensures InRequestOrder(first, n, reply, ParseAll(SortById(arrived)))
    {
      BatchEndToEnd(first, n, reply, arrived);
    }
  }
}
