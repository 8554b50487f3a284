/** The daily job that reminds users of skills whose review date has passed:
    it groups the due skill documents by user, builds one notification text per
    user, and sends it to each user who has a push subscription. The query, the
    subscription lookup and the sending are I/O; the snapshot, the stored
    subscriptions and the outcome of each send are parameters. */
module NotifyExpired {
  import opened Wrappers
  import opened Sequences

  /** The fields of a skill document the job reads; a missing field is None. */
  datatype SkillDoc = SkillDoc(userId: Option<string>, name: Option<string>)

  /** `!data.userId || !data.name` fails: both fields are present and non-empty,
      that is, the document is a pair of non-empty strings. */
  function IsComplete(d: SkillDoc): (complete: bool)
    ensures complete <==> exists u: string, n: string :: |u| > 0 && |n| > 0 && d == SkillDoc(Some(u), Some(n))
  {
    d.userId.Some? && d.userId.value != "" && d.name.Some? && d.name.value != ""
  }

  // ---------------------------------------------------------------------------
  // Grouping by user (reference definitions)
  // ---------------------------------------------------------------------------

  /** The user ids of the complete documents, in snapshot order, repeats kept. */
  function UserIds(docs: seq<SkillDoc>): (ids: seq<string>)
    ensures forall u :: u in ids <==> exists k :: 0 <= k < |docs| && IsComplete(docs[k]) && docs[k].userId.value == u
    decreases |docs|
  {
    if docs == [] then []
    else
      var init, last := docs[..|docs| - 1], docs[|docs| - 1];
      assert forall k :: 0 <= k < |init| ==> init[k] == docs[k];
      UserIds(init) + (if IsComplete(last) then [last.userId.value] else [])
  }

  /** The users in the order their first complete document appears. */
  function UserOrder(docs: seq<SkillDoc>): seq<string> {
    Dedupe(UserIds(docs))
  }

  /** The names of `u`'s complete documents, in snapshot order, repeats kept. */
  function NamesOf(docs: seq<SkillDoc>, u: string): seq<string>
    decreases |docs|
  {
    if docs == [] then []
    else
      var last := docs[|docs| - 1];
      NamesOf(docs[..|docs| - 1], u) + (if IsComplete(last) && last.userId.value == u then [last.name.value] else [])
  }

  /** The number of complete documents. */
  function CompleteCount(docs: seq<SkillDoc>): nat
    decreases |docs|
  {
    if docs == [] then 0
    else CompleteCount(docs[..|docs| - 1]) + (if IsComplete(docs[|docs| - 1]) then 1 else 0)
  }

  lemma UserIdsSnoc(docs: seq<SkillDoc>, d: SkillDoc)
    ensures UserIds(docs + [d]) == UserIds(docs) + (if IsComplete(d) then [d.userId.value] else [])
  {
    assert (docs + [d])[..|docs|] == docs;
  }

  lemma NamesOfSnoc(docs: seq<SkillDoc>, d: SkillDoc, u: string)
    ensures NamesOf(docs + [d], u) ==
      NamesOf(docs, u) + (if IsComplete(d) && d.userId.value == u then [d.name.value] else [])
  {
    assert (docs + [d])[..|docs|] == docs;
  }

  lemma CompleteCountSnoc(docs: seq<SkillDoc>, d: SkillDoc)
    ensures CompleteCount(docs + [d]) == CompleteCount(docs) + (if IsComplete(d) then 1 else 0)
  {
    assert (docs + [d])[..|docs|] == docs;
  }

  /** `users` and `userSkillMap` are the grouping of `docs`: the users in order
      of their first complete document, each with the names of their documents. */
  ghost predicate Grouped(docs: seq<SkillDoc>, users: seq<string>, userSkillMap: map<string, seq<string>>) {
    users == UserOrder(docs) &&
    (forall u :: u in userSkillMap <==> u in users) &&
    (forall u :: u in userSkillMap ==> userSkillMap[u] == NamesOf(docs, u))
  }

  /** One iteration of the grouping loop keeps `Grouped`. */
  lemma GroupedStep(docs: seq<SkillDoc>, d: SkillDoc, users: seq<string>, userSkillMap: map<string, seq<string>>,
                    users': seq<string>, userSkillMap': map<string, seq<string>>)
    requires Grouped(docs, users, userSkillMap)
    requires !IsComplete(d) ==> users' == users && userSkillMap' == userSkillMap
    requires IsComplete(d) ==>
      var u := d.userId.value;
      users' == (if u in userSkillMap then users else users + [u]) &&
      userSkillMap' == userSkillMap[u := (if u in userSkillMap then userSkillMap[u] else []) + [d.name.value]]
    ensures Grouped(docs + [d], users', userSkillMap')
  {
    UserOrderSnoc(docs, d);
    forall u | u in userSkillMap' ensures userSkillMap'[u] == NamesOf(docs + [d], u) {
      NamesOfSnoc(docs, d, u);
      assert NamesOf(docs, u) + [] == NamesOf(docs, u);
      if IsComplete(d) && u == d.userId.value && u !in userSkillMap {
        UserOrderIsUsersWithDocs(docs, u);
      }
    }
  }

  /** The grouping loop: `userSkillMap` starts empty and, for each complete
      document in snapshot order, gets an empty list for a user seen for the first
      time and then the document's name appended to that user's list. `users` is
      the object's key order (insertion order). */
  method GroupByUser(docs: seq<SkillDoc>) returns (users: seq<string>, userSkillMap: map<string, seq<string>>)
    ensures users == UserOrder(docs)
    ensures forall u :: u in userSkillMap <==> u in users
    ensures forall u :: u in userSkillMap ==> userSkillMap[u] == NamesOf(docs, u)
  {
    users, userSkillMap := [], map[];
    for k := 0 to |docs|
      invariant Grouped(docs[..k], users, userSkillMap)
    {
      var data := docs[k];
      ghost var prevUsers, prevMap := users, userSkillMap;
      if IsComplete(data) {
        var userId := data.userId.value;
        var names := [];
        if userId in userSkillMap {
          names := userSkillMap[userId];
        } else {
          users := users + [userId];
        }
        userSkillMap := userSkillMap[userId := names + [data.name.value]];
      }
      GroupedStep(docs[..k], data, prevUsers, prevMap, users, userSkillMap);
      assert docs[..k + 1] == docs[..k] + [data];
    }
    assert docs[..|docs|] == docs;
  }

  /** A user's list is non-empty exactly when one of their documents is complete. */
  lemma {:induction false} NamesOfNonEmpty(docs: seq<SkillDoc>, u: string)
    ensures NamesOf(docs, u) != [] <==> u in UserIds(docs)
    decreases |docs|
  {
    if docs != [] {
      var init, d := docs[..|docs| - 1], docs[|docs| - 1];
      assert docs == init + [d];
      NamesOfNonEmpty(init, u);
      UserIdsSnoc(init, d);
      NamesOfSnoc(init, d, u);
    }
  }

  /** A user has a list exactly when at least one complete document is theirs, and
      that list is never empty. */
  lemma UserOrderIsUsersWithDocs(docs: seq<SkillDoc>, u: string)
    ensures u in UserOrder(docs) <==> exists k :: 0 <= k < |docs| && IsComplete(docs[k]) && docs[k].userId.value == u
    ensures u in UserOrder(docs) <==> NamesOf(docs, u) != []
  {
    NamesOfNonEmpty(docs, u);
    var ids := UserIds(docs);
    if u in ids {
      var k :| 0 <= k < |ids| && ids[k] == u;
      assert ids[k] in Dedupe(ids);
    }
  }

  /** Adding a document whose user is new appends that user; any other document
      leaves the user order as it was. */
  lemma UserOrderSnoc(docs: seq<SkillDoc>, d: SkillDoc)
    ensures IsComplete(d) && d.userId.value !in UserOrder(docs) ==>
      UserOrder(docs + [d]) == UserOrder(docs) + [d.userId.value]
    ensures !(IsComplete(d) && d.userId.value !in UserOrder(docs)) ==>
      UserOrder(docs + [d]) == UserOrder(docs)
  {
    UserIdsSnoc(docs, d);
    if IsComplete(d) {
      var ids, u := UserIds(docs), d.userId.value;
      var xs := ids + [u];
      assert xs[..|xs| - 1] == ids && xs[|xs| - 1] == u;
      assert Dedupe(xs) == if u in Dedupe(ids) then Dedupe(ids) else Dedupe(ids) + [u];
    } else {
      assert UserIds(docs) + [] == UserIds(docs);
    }
  }

  /** Sum of the list lengths over the given keys. */
  function NameCount(keys: seq<string>, docs: seq<SkillDoc>): nat
    decreases |keys|
  {
    if keys == [] then 0 else NameCount(keys[..|keys| - 1], docs) + |NamesOf(docs, keys[|keys| - 1])|
  }

  /** One more complete document adds one to the count of the key it belongs to. */
  lemma {:induction false} NameCountStep(keys: seq<string>, docs: seq<SkillDoc>, d: SkillDoc)
    requires NoDuplicates(keys)
    ensures NameCount(keys, docs + [d]) ==
      NameCount(keys, docs) + (if IsComplete(d) && d.userId.value in keys then 1 else 0)
    decreases |keys|
  {
    assert (docs + [d])[..|docs|] == docs;
    if keys != [] {
      var init := keys[..|keys| - 1];
      assert NoDuplicates(init) by {
        forall i, j | 0 <= i < j < |init| ensures init[i] != init[j] {
          assert init[i] == keys[i] && init[j] == keys[j];
        }
      }
      NameCountStep(init, docs, d);
      if IsComplete(d) && d.userId.value == keys[|keys| - 1] {
        assert d.userId.value !in init;
      }
    }
  }

  /** Every complete document lands in exactly one list: the list lengths add up
      to the number of complete documents. */
  lemma {:induction false} GroupingKeepsEveryName(docs: seq<SkillDoc>)
    ensures NameCount(UserOrder(docs), docs) == CompleteCount(docs)
    decreases |docs|
  {
    if docs != [] {
      var init, d := docs[..|docs| - 1], docs[|docs| - 1];
      assert docs == init + [d];
      GroupingKeepsEveryName(init);
      CompleteCountSnoc(init, d);
      UserOrderSnoc(init, d);
      var users := UserOrder(init);
      NameCountStep(users, init, d);
      if IsComplete(d) && d.userId.value !in users {
        NewUserCount(init, d);
      }
    }
  }

  /** A document of a user not seen before opens a list holding just its name. */
  lemma NewUserCount(docs: seq<SkillDoc>, d: SkillDoc)
    requires IsComplete(d) && d.userId.value !in UserOrder(docs)
    ensures NameCount(UserOrder(docs) + [d.userId.value], docs + [d]) ==
      NameCount(UserOrder(docs), docs + [d]) + 1
  {
    var users, u := UserOrder(docs), d.userId.value;
    assert (users + [u])[..|users|] == users;
    UserOrderIsUsersWithDocs(docs, u);
    NamesOfSnoc(docs, d, u);
  }

  // ---------------------------------------------------------------------------
  // The notification text
  // ---------------------------------------------------------------------------

  const Title: string := "復習リマインダー"
  /** The sentence every body ends with. */
  const Closing: string := "アプリで進捗を記録しましょう。"
  const SingleSuffix: string := "の復習予定日です！" + Closing
  const ListPrefix: string := "本日復習予定のスキル: "
  const ListSuffix: string := "\n" + Closing

  function Quote(name: string): string {
    "「" + name + "」"
  }

  /** `skillNames.map(n => `「${n}」`).join('、')`: empty for no names, otherwise
      opening with the first name's quote and closing with the last one's. */
  function QuotedList(names: seq<string>): (list: string)
    ensures list == [] <==> names == []
    ensures names != [] ==> list[0] == '「' && list[|list| - 1] == '」'
    decreases |names|
  {
    if names == [] then ""
    else if |names| == 1 then Quote(names[0])
    else Quote(names[0]) + "、" + QuotedList(names[1..])
  }

  /** The body for one user's skills: a sentence about the skill when there is
      one, otherwise the fixed heading, the quoted names joined by `、`, and the
      closing line. */
  function NotificationBody(skillNames: seq<string>): (body: string)
    ensures |body| > |Closing| && body[|body| - |Closing|..] == Closing
    ensures body[0] == '「' <==> |skillNames| == 1
  {
    if |skillNames| == 1 then
      var body := Quote(skillNames[0]) + SingleSuffix;
      assert body[|body| - |Closing|..] == Closing;
      body
    else
      var body := ListPrefix + QuotedList(skillNames) + ListSuffix;
      assert body[|body| - |Closing|..] == Closing;
      body
  }

  /** The list opens with the first name, quoted. */
  lemma QuotedListStartsWithFirst(names: seq<string>)
    requires names != []
    ensures |Quote(names[0])| <= |QuotedList(names)|
    ensures QuotedList(names)[..|Quote(names[0])|] == Quote(names[0])
  {
    if |names| > 1 {
      var q := Quote(names[0]);
      assert (q + "、" + QuotedList(names[1..]))[..|q|] == q;
    }
  }

  /** Neighbouring names appear next to each other, in order, quoted and
      separated by `、`. */
  lemma {:induction false} QuotedListAdjacent(names: seq<string>, k: nat)
    requires k + 1 < |names|
    ensures IsInfix(Quote(names[k]) + "、" + Quote(names[k + 1]), QuotedList(names))
    decreases |names|
  {
    var s, q0 := QuotedList(names), Quote(names[0]);
    var rest := QuotedList(names[1..]);
    assert s == q0 + "、" + rest;
    if k == 0 {
      var q1 := Quote(names[1]);
      QuotedListStartsWithFirst(names[1..]);
      assert rest[..|q1|] == q1;
      assert s[..|q0| + 1 + |q1|] == q0 + "、" + q1;
      assert InfixAt(q0 + "、" + q1, s, 0);
    } else {
      QuotedListAdjacent(names[1..], k - 1);
      InfixExtend(Quote(names[k]) + "、" + Quote(names[k + 1]), rest, q0 + "、", "");
      assert q0 + "、" + rest + "" == s;
    }
  }

  /** One skill gives the sentence naming it; any other number gives the fixed
      heading first and the closing line last, around the quoted list. */
  lemma BodyShape(skillNames: seq<string>)
    ensures |skillNames| == 1 ==>
      var body := NotificationBody(skillNames);
      |body| == |Quote(skillNames[0])| + |SingleSuffix| &&
      body[..|Quote(skillNames[0])|] == Quote(skillNames[0]) && body[|Quote(skillNames[0])|..] == SingleSuffix
    ensures |skillNames| != 1 ==>
      var body := NotificationBody(skillNames);
      |body| == |ListPrefix| + |QuotedList(skillNames)| + |ListSuffix| &&
      body[..|ListPrefix|] == ListPrefix && body[|body| - |ListSuffix|..] == ListSuffix &&
      body[|ListPrefix|..|body| - |ListSuffix|] == QuotedList(skillNames)
  {
    var body := NotificationBody(skillNames);
    if |skillNames| == 1 {
      var q := Quote(skillNames[0]);
      assert body[..|q|] == q && body[|q|..] == SingleSuffix;
    } else {
      var l := QuotedList(skillNames);
      assert body == ListPrefix + l + ListSuffix;
      assert body[..|ListPrefix|] == ListPrefix;
      assert body[|body| - |ListSuffix|..] == ListSuffix;
      assert body[|ListPrefix|..|body| - |ListSuffix|] == l;
    }
  }

  lemma InfixExtend(a: string, b: string, p: string, q: string)
    requires IsInfix(a, b)
    ensures IsInfix(a, p + b + q)
  {
    var k :| 0 <= k <= |b| - |a| && InfixAt(a, b, k);
    assert (p + b + q)[|p| + k..|p| + k + |a|] == b[k..k + |a|];
    assert InfixAt(a, p + b + q, |p| + k);
  }

  lemma {:induction false} QuotedListMentions(names: seq<string>, k: nat)
    requires k < |names|
    ensures IsInfix(Quote(names[k]), QuotedList(names))
    decreases |names|
  {
    var s := QuotedList(names);
    if |names| == 1 {
      assert InfixAt(Quote(names[0]), s, 0);
    } else if k == 0 {
      assert s[..|Quote(names[0])|] == Quote(names[0]);
      assert InfixAt(Quote(names[0]), s, 0);
    } else {
      QuotedListMentions(names[1..], k - 1);
      InfixExtend(Quote(names[k]), QuotedList(names[1..]), Quote(names[0]) + "、", "");
      assert Quote(names[0]) + "、" + QuotedList(names[1..]) + "" == s;
    }
  }

  /** Every skill of the user is named, in brackets, in the body. */
  lemma BodyMentionsEverySkill(skillNames: seq<string>, k: nat)
    requires k < |skillNames|
    ensures IsInfix(Quote(skillNames[k]), NotificationBody(skillNames))
  {
    if |skillNames| == 1 {
      var q := Quote(skillNames[0]);
      assert (q + SingleSuffix)[..|q|] == q;
      assert InfixAt(q, q + SingleSuffix, 0);
    } else {
      QuotedListMentions(skillNames, k);
      InfixExtend(Quote(skillNames[k]), QuotedList(skillNames), ListPrefix, ListSuffix);
    }
  }

  // ---------------------------------------------------------------------------
  // Sending
  // ---------------------------------------------------------------------------

  /** The user has a stored subscription and the send to it succeeded.
      `subscriptions` holds the stored subscription per user id; `delivered`
      says whether sending the given title and body to the given user's
      subscription succeeds, so each user's send can fail on its own. */
  predicate IsNotified(u: string, userSkillMap: map<string, seq<string>>, subscriptions: map<string, string>,
                       delivered: (string, string, string, string) -> bool)
  {
    u in subscriptions && u in userSkillMap && delivered(u, subscriptions[u], Title, NotificationBody(userSkillMap[u]))
  }

  function NotifiedFilter(userSkillMap: map<string, seq<string>>, subscriptions: map<string, string>,
                          delivered: (string, string, string, string) -> bool): string -> bool
  {
    u => IsNotified(u, userSkillMap, subscriptions, delivered)
  }

  /** The sending loop: users without a subscription are skipped, a failed send is
      logged and skipped, a successful one appends the user to `notifiedUsers`. */
  method NotifyUsers(users: seq<string>, userSkillMap: map<string, seq<string>>,
                     subscriptions: map<string, string>, delivered: (string, string, string, string) -> bool)
    returns (notifiedUsers: seq<string>)
    requires forall u :: u in users ==> u in userSkillMap
    ensures notifiedUsers == Filter(users, NotifiedFilter(userSkillMap, subscriptions, delivered))
  {
    var isNotified := NotifiedFilter(userSkillMap, subscriptions, delivered);
    notifiedUsers := [];
    for i := 0 to |users|
      invariant notifiedUsers == Filter(users[..i], isNotified)
    {
      var userId := users[i];
      assert users[..i + 1] == users[..i] + [userId];
      FilterAppend(users[..i], [userId], isNotified);
      if userId !in subscriptions {
        continue;
      }
      var subscription := subscriptions[userId];
      var body := NotificationBody(userSkillMap[userId]);
      if delivered(userId, subscription, Title, body) {
        notifiedUsers := notifiedUsers + [userId];
      }
    }
    assert users[..|users|] == users;
  }

  /** The whole job on a snapshot: group, then send. The users reported are
      users with a subscription whose send succeeded and who own a complete due
      document; each appears once, in the order their first document appears. */
  method NotifyExpiredReviews(docs: seq<SkillDoc>, subscriptions: map<string, string>,
                              delivered: (string, string, string, string) -> bool)
    returns (notified: seq<string>)
    ensures NoDuplicates(notified)
    ensures IsSubsequence(notified, UserOrder(docs))
    ensures forall u :: u in notified <==>
      u in UserOrder(docs) && u in subscriptions && delivered(u, subscriptions[u], Title, NotificationBody(NamesOf(docs, u)))
  {
    var users, userSkillMap := GroupByUser(docs);
    notified := NotifyUsers(users, userSkillMap, subscriptions, delivered);
    FilterNoDuplicates(users, NotifiedFilter(userSkillMap, subscriptions, delivered));
    FilterIsSubsequence(users, NotifiedFilter(userSkillMap, subscriptions, delivered));
  }
}
