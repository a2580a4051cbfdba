/** The device checks and the two-phase send of `sendMessage`,
    `src/controllers/message_controller.cpp`. Whether a device is active, and what each source
    encryption yields (the empty string when it fails), are inputs. */
module MessageSend {
  import opened Wrappers

  datatype Device = Device(id: nat, registrationId: nat, active: bool)
  datatype Account = Account(devices: seq<Device>, authDeviceId: nat)
  datatype Message = Message(destinationDeviceId: nat, destinationRegistrationId: int, noise: bool)

  // ---------------------------------------------------------------- specification

  /** The devices a message must reach: all active ones, on a sync except the sender's own. */
  predicate Expects(account: Account, isSync: bool, device: Device) {
    device.active && !(isSync && device.id == account.authDeviceId)
  }

  function Expected(account: Account, isSync: bool): set<nat> {
    ExpectedOf(account, account.devices, isSync)
  }

  function ExpectedOf(account: Account, devices: seq<Device>, isSync: bool): set<nat> {
    set d | d in devices && Expects(account, isSync, d) :: d.id
  }

  lemma ExpectedSnoc(account: Account, devices: seq<Device>, isSync: bool, d: Device)
    ensures ExpectedOf(account, devices + [d], isSync)
            == ExpectedOf(account, devices, isSync) + if Expects(account, isSync, d) then {d.id} else {}
  {
  }

  function Targets(messages: seq<Message>): set<nat> {
    set m | m in messages :: m.destinationDeviceId
  }

  function Ids(s: seq<nat>): set<nat> {
    set i | i in s
  }

  predicate SingleNoise(messages: seq<Message>) {
    |messages| == 1 && messages[0].noise
  }

  /** What the device list check accepts. */
  predicate Matches(account: Account, messages: seq<Message>, isSync: bool) {
    if SingleNoise(messages) then isSync && messages[0].destinationDeviceId == account.authDeviceId
    else Targets(messages) == Expected(account, isSync)
  }

  /** `AccountsManager::getDevice`: the first device with that id. */
  function GetDevice(devices: seq<Device>, id: nat): (r: Option<Device>)
    ensures r.Some? ==> r.value in devices && r.value.id == id
    ensures r.None? ==> forall d :: d in devices ==> d.id != id
  {
    if devices == [] then None
    else if devices[0].id == id then Some(devices[0])
    else GetDevice(devices[1..], id)
  }

  predicate Stale(account: Account, m: Message) {
    var device := GetDevice(account.devices, m.destinationDeviceId);
    device.Some? && m.destinationRegistrationId > 0 && m.destinationRegistrationId != device.value.registrationId
  }

  /** Targets of the stale messages, in the order of the messages. */
  function StaleTargets(account: Account, messages: seq<Message>): seq<nat> {
    if messages == [] then []
    else
      var init, last := StaleTargets(account, messages[..|messages| - 1]), messages[|messages| - 1];
      if Stale(account, last) then init + [last.destinationDeviceId] else init
  }

  /** On a sync the sender's own device is not expected, whatever its state; every other active
      device is; an inactive one never is. */
  lemma ExpectedDevices(account: Account, isSync: bool, d: Device)
    requires d in account.devices && forall e :: e in account.devices && e.id == d.id ==> e == d
    ensures d.id in Expected(account, isSync) <==> d.active && (isSync ==> d.id != account.authDeviceId)
  {
    if d.id in Expected(account, isSync) {
      var e :| e in account.devices && Expects(account, isSync, e) && e.id == d.id;
    }
  }

  /** Given the one device with its id, a message is stale exactly when it names a registration
      of its own and not the device's; zero or less names none, and a message to no device is
      never stale. */
  lemma StaleExactly(account: Account, m: Message, d: Device)
    requires d in account.devices && forall e :: e in account.devices && e.id == d.id ==> e == d
    ensures m.destinationDeviceId == d.id ==>
              (Stale(account, m) <==> m.destinationRegistrationId > 0 && m.destinationRegistrationId != d.registrationId)
    ensures (forall e :: e in account.devices ==> e.id != m.destinationDeviceId) ==> !Stale(account, m)
  {}

  lemma {:induction false} StaleTargetsAre(account: Account, messages: seq<Message>)
    ensures StaleTargets(account, messages) == [] <==> forall m :: m in messages ==> !Stale(account, m)
  {
    if messages != [] {
      var n := |messages| - 1;
      StaleTargetsAre(account, messages[..n]);
      assert messages == messages[..n] + [messages[n]];
    }
  }

  /** The message list is one the send loops go through with. */
  predicate Valid(account: Account, messages: seq<Message>, isSync: bool) {
    Matches(account, messages, isSync) && forall m :: m in messages ==> !Stale(account, m)
  }

  predicate AllLookupsDefined(account: Account, messages: seq<Message>) {
    forall m :: m in messages ==> GetDevice(account.devices, m.destinationDeviceId).Some?
  }

  predicate HasAuthDevice(account: Account) {
    GetDevice(account.devices, account.authDeviceId).Some?
  }

  /** After the device list check every lookup of the send loops is defined, except that a
      noise message to oneself relies on the account listing the authenticated device. */
  lemma LookupsDefined(account: Account, messages: seq<Message>, isSync: bool)
    requires Matches(account, messages, isSync)
    ensures AllLookupsDefined(account, messages) <==> SingleNoise(messages) ==> HasAuthDevice(account)
  {
    if SingleNoise(messages) {
      assert messages[0] in messages;
    } else {
      forall m | m in messages ensures GetDevice(account.devices, m.destinationDeviceId).Some? {
        assert m.destinationDeviceId in Targets(messages);
        var d :| d in account.devices && Expects(account, isSync, d) && d.id == m.destinationDeviceId;
      }
    }
  }

  // ---------------------------------------------------------------- device list

  predicate Ascending(s: seq<nat>) {
    forall i, j :: 0 <= i < j < |s| ==> s[i] < s[j]
  }

  lemma SetHasLeast(s: set<nat>) returns (least: nat)
    requires s != {}
    ensures least in s && forall j :: j in s ==> least <= j
  {
    least :| least in s;
    var rest := s - {least};
    assert forall j :: j in s ==> j == least || j in rest;
    if rest != {} {
      var other := SetHasLeast(rest);
      if other < least {
        least := other;
      }
    }
  }

  lemma IdsSnoc(s: seq<nat>, i: nat)
    ensures Ids(s + [i]) == Ids(s) + {i}
  {
  }

  /** Active devices without a message, in the account's order. */
  function Missing(account: Account, devices: seq<Device>, isSync: bool, targets: set<nat>): seq<nat> {
    if devices == [] then []
    else
      var init, last := Missing(account, devices[..|devices| - 1], isSync, targets), devices[|devices| - 1];
      if Expects(account, isSync, last) && last.id !in targets then init + [last.id] else init
  }

  lemma {:induction false} MissingAre(account: Account, devices: seq<Device>, isSync: bool, targets: set<nat>)
    ensures Ids(Missing(account, devices, isSync, targets))
            == ExpectedOf(account, devices, isSync) - targets
  {
    if devices != [] {
      var n := |devices| - 1;
      MissingAre(account, devices[..n], isSync, targets);
      assert devices == devices[..n] + [devices[n]];
      ExpectedSnoc(account, devices[..n], isSync, devices[n]);
      IdsSnoc(Missing(account, devices[..n], isSync, targets), devices[n].id);
    }
  }

  /** The devices loop: `missing` and the set of expected ids. */
  method CollectDevices(account: Account, isSync: bool, targets: set<nat>)
    returns (missing: seq<nat>, accountDeviceIds: set<nat>)
    ensures missing == Missing(account, account.devices, isSync, targets)
    ensures accountDeviceIds == Expected(account, isSync)
  {
    missing, accountDeviceIds := [], {};
    for k := 0 to |account.devices|
      invariant missing == Missing(account, account.devices[..k], isSync, targets)
      invariant accountDeviceIds == ExpectedOf(account, account.devices[..k], isSync)
    {
      var device := account.devices[k];
      assert account.devices[..k + 1] == account.devices[..k] + [device];
      ExpectedSnoc(account, account.devices[..k], isSync, device);
      if !device.active || (isSync && device.id == account.authDeviceId) {
        continue;
      }
      if device.id !in targets {
        missing := missing + [device.id];
      }
      accountDeviceIds := accountDeviceIds + {device.id};
    }
    assert account.devices[..|account.devices|] == account.devices;
  }

  method PopLeast(s: set<nat>) returns (least: nat, rest: set<nat>)
    requires s != {}
    ensures least in s && rest == s - {least} && forall j :: j in rest ==> least < j
  {
    ghost var witness_ := SetHasLeast(s);
    least :| least in s && forall j :: j in s ==> least <= j;
    rest := s - {least};
  }

  /** The loop over the ordered set of targets. */
  method CollectExtra(targets: set<nat>, expected: set<nat>) returns (extra: seq<nat>)
    ensures Ids(extra) == targets - expected && Ascending(extra)
  {
    extra := [];
    var todo := targets;
    while todo != {}
      invariant todo <= targets && Ids(extra) == targets - todo - expected && Ascending(extra)
      invariant forall k, j :: 0 <= k < |extra| && j in todo ==> extra[k] < j
    {
      var id, rest := PopLeast(todo);
      IdsSnoc(extra, id);
      assert targets - rest - expected == (targets - todo - expected) + if id in expected then {} else {id};
      todo := rest;
      if id !in expected {
        extra := extra + [id];
      }
    }
  }

  method ValidateCompleteDeviceList(account: Account, messages: seq<Message>, isSync: bool)
    returns (ok: bool, missing: seq<nat>, extra: seq<nat>)
    ensures ok <==> Matches(account, messages, isSync)
    ensures SingleNoise(messages) ==> missing == [] && extra == []
    ensures !SingleNoise(messages) ==>
              && Ids(missing) == Expected(account, isSync) - Targets(messages)
              && Ids(extra) == Targets(messages) - Expected(account, isSync)
              && missing == Missing(account, account.devices, isSync, Targets(messages)) && Ascending(extra)
  {
    if |messages| == 1 && messages[0].noise {
      return isSync && messages[0].destinationDeviceId == account.authDeviceId, [], [];
    }
    var messageDeviceIds: set<nat> := {};
    for k := 0 to |messages|
      invariant messageDeviceIds == Targets(messages[..k])
    {
      assert messages[..k + 1] == messages[..k] + [messages[k]];
      messageDeviceIds := messageDeviceIds + {messages[k].destinationDeviceId};
    }
    assert messages[..|messages|] == messages;
    var accountDeviceIds: set<nat>;
    missing, accountDeviceIds := CollectDevices(account, isSync, messageDeviceIds);
    extra := CollectExtra(messageDeviceIds, accountDeviceIds);
    MissingAre(account, account.devices, isSync, messageDeviceIds);
    NoIds(missing);
    NoIds(extra);
    ok := missing == [] && extra == [];
  }

  lemma NoIds(s: seq<nat>)
    ensures Ids(s) == {} <==> s == []
  {
    if s != [] {
      assert s[0] in Ids(s);
    }
  }

  method ValidateRegistrationIds(account: Account, messages: seq<Message>) returns (ok: bool, stale: seq<nat>)
    ensures stale == StaleTargets(account, messages)
    ensures ok <==> forall m :: m in messages ==> !Stale(account, m)
  {
    stale := [];
    for k := 0 to |messages|
      invariant stale == StaleTargets(account, messages[..k])
    {
      assert messages[..k + 1][..k] == messages[..k];
      var m := messages[k];
      var device := GetDevice(account.devices, m.destinationDeviceId);
      if device.Some? && m.destinationRegistrationId > 0 && m.destinationRegistrationId != device.value.registrationId {
        stale := stale + [device.value.id];
      }
    }
    assert messages[..|messages|] == messages;
    StaleTargetsAre(account, messages);
    ok := stale == [];
  }

  // ---------------------------------------------------------------- the send

  /** What happens outside, by the position of the message: whose publication reaches a
      subscriber, and whose store fails. */
  datatype Channel = Channel(published: set<nat>, unstored: set<nat>)

  datatype Route = Published | Ignored | Stored | Lost
  datatype Sent = Sent(device: Device, sourceExtra: string, route: Route)
  datatype Response = Conflict(missing: seq<nat>, extra: seq<nat>) | Gone(stale: seq<nat>) | ServerError | Ok

  /** The last of the first `n` messages to a device: its encryption is the one kept. */
  function LastTo(messages: seq<Message>, n: nat, id: nat): (k: nat)
    requires n <= |messages| && exists i :: 0 <= i < n && messages[i].destinationDeviceId == id
    ensures k < n && messages[k].destinationDeviceId == id
    ensures forall i :: k < i < n ==> messages[i].destinationDeviceId != id
  {
    if messages[n - 1].destinationDeviceId == id then n - 1 else LastTo(messages, n - 1, id)
  }

  /** `sendLocalMessage` of message `i`: publish it, else ignore it if it is noise, else store
      it. The caller drops the result, so a failed store is a lost message. */
  function Deliver(device: Device, m: Message, sourceExtra: string, ch: Channel, i: nat): Sent {
    Sent(device, sourceExtra,
         if i in ch.published then Published
         else if m.noise then Ignored
         else if i in ch.unstored then Lost
         else Stored)
  }

  /** What the second loop has sent after some of the messages. */
  predicate SentAre(account: Account, messages: seq<Message>, extras: seq<string>, ch: Channel, sent: seq<Sent>)
    requires |sent| <= |messages| == |extras| && AllLookupsDefined(account, messages)
  {
    forall i :: 0 <= i < |sent| ==>
      && var m := messages[i];
      && sent[i] == Deliver(GetDevice(account.devices, m.destinationDeviceId).value, m,
                            extras[LastTo(messages, |messages|, m.destinationDeviceId)], ch, i)
  }

  /** First loop: the source encrypted for every device, or nothing. */
  method EncryptSources(account: Account, messages: seq<Message>, extras: seq<string>)
    returns (ok: bool, sourceExtraMap: map<nat, string>)
    requires |extras| == |messages| && AllLookupsDefined(account, messages)
    ensures ok <==> "" !in extras
    ensures ok ==> forall i :: 0 <= i < |messages| ==>
              && var id := messages[i].destinationDeviceId;
              && id in sourceExtraMap && sourceExtraMap[id] == extras[LastTo(messages, |messages|, id)]
  {
    sourceExtraMap := map[];
    for k := 0 to |messages|
      invariant "" !in extras[..k]
      invariant forall i :: 0 <= i < k ==>
        && var id := messages[i].destinationDeviceId;
        && id in sourceExtraMap && sourceExtraMap[id] == extras[LastTo(messages, k, id)]
    {
      var device := GetDevice(account.devices, messages[k].destinationDeviceId).value;
      assert extras[..k + 1] == extras[..k] + [extras[k]];
      if extras[k] == "" {
        return false, map[];
      }
      sourceExtraMap := sourceExtraMap[device.id := extras[k]];
    }
    assert extras[..|extras|] == extras;
    ok := true;
  }

  /** Second loop. */
  method SendAll(account: Account, messages: seq<Message>, extras: seq<string>, ch: Channel,
                 sourceExtraMap: map<nat, string>)
    returns (sent: seq<Sent>)
    requires |extras| == |messages| && AllLookupsDefined(account, messages)
    requires forall i :: 0 <= i < |messages| ==>
               && var id := messages[i].destinationDeviceId;
               && id in sourceExtraMap && sourceExtraMap[id] == extras[LastTo(messages, |messages|, id)]
    ensures |sent| == |messages| && SentAre(account, messages, extras, ch, sent)
  {
    sent := [];
    for k := 0 to |messages|
      invariant |sent| == k && SentAre(account, messages, extras, ch, sent)
    {
      var device := GetDevice(account.devices, messages[k].destinationDeviceId).value;
      sent := sent + [Deliver(device, messages[k], sourceExtraMap[device.id], ch, k)];
    }
  }

  /** From the device check to the answer. Nothing is sent unless both checks pass and every
      source was encrypted; then every message goes to its device, with that device's source, and
      the answer is the same whether or not the stores succeed. */
  method SendMessage(account: Account, messages: seq<Message>, isSync: bool, extras: seq<string>, ch: Channel)
    returns (response: Response, sent: seq<Sent>)
    requires |extras| == |messages|
    requires isSync ==> HasAuthDevice(account)
    ensures response.Conflict? <==> !Matches(account, messages, isSync)
    ensures response.Gone? <==> Matches(account, messages, isSync) && !Valid(account, messages, isSync)
    ensures response.ServerError? <==> Valid(account, messages, isSync) && "" in extras
    ensures response.Ok? <==> Valid(account, messages, isSync) && "" !in extras
    ensures response.Gone? ==> response.stale == StaleTargets(account, messages)
    ensures response.Conflict? && !SingleNoise(messages) ==>
              && Ids(response.missing) == Expected(account, isSync) - Targets(messages)
              && Ids(response.extra) == Targets(messages) - Expected(account, isSync)
    ensures !response.Ok? ==> sent == []
    ensures response.Ok? ==> |sent| == |messages| && AllLookupsDefined(account, messages)
                             && SentAre(account, messages, extras, ch, sent)
  {
    var complete, missing, extra := ValidateCompleteDeviceList(account, messages, isSync);
    if !complete {
      return Conflict(missing, extra), [];
    }
    var current, stale := ValidateRegistrationIds(account, messages);
    if !current {
      return Gone(stale), [];
    }
    LookupsDefined(account, messages, isSync);
    var encrypted, sourceExtraMap := EncryptSources(account, messages, extras);
    if !encrypted {
      return ServerError, [];
    }
    sent := SendAll(account, messages, extras, ch, sourceExtraMap);
    response := Ok;
  }

  function Addressed(sent: seq<Sent>): set<nat> {
    set s | s in sent :: s.device.id
  }

  /** Some message that is not noise is neither published nor stored. */
  predicate LosesMessage(messages: seq<Message>, ch: Channel) {
    exists i :: 0 <= i < |messages| && !messages[i].noise && i !in ch.published && i in ch.unstored
  }

  /** The message is with its device or in store, or it is noise nobody was there to hear. */
  predicate Settled(m: Message, s: Sent, ch: Channel, i: nat) {
    s.route.Published? || s.route.Stored? || (m.noise && i !in ch.published)
  }

  /** A send answered with success addresses exactly the expected devices, or, as a noise
      message, the sender's own. Every message is settled if and only if none but noise went
      unpublished to a failing store. */
  lemma SendReaches(account: Account, messages: seq<Message>, isSync: bool, extras: seq<string>, ch: Channel,
                    sent: seq<Sent>)
    requires Valid(account, messages, isSync) && |extras| == |messages| == |sent| && AllLookupsDefined(account, messages)
    requires SentAre(account, messages, extras, ch, sent)
    ensures Addressed(sent) == if SingleNoise(messages) then {account.authDeviceId} else Expected(account, isSync)
    ensures (forall i :: 0 <= i < |sent| ==> Settled(messages[i], sent[i], ch, i)) <==> !LosesMessage(messages, ch)
  {
    assert forall i :: 0 <= i < |sent| ==> messages[i] in messages && sent[i].device.id == messages[i].destinationDeviceId;
    forall id | id in Targets(messages) ensures id in Addressed(sent) {
      var i :| 0 <= i < |messages| && messages[i].destinationDeviceId == id;
      assert sent[i] in sent;
    }
    assert Addressed(sent) == Targets(messages);
  }

  /** The devices that got a message, or have one in store. */
  function Holding(sent: seq<Sent>): set<nat> {
    set s | s in sent && (s.route.Published? || s.route.Stored?) :: s.device.id
  }

  predicate GetsThrough(messages: seq<Message>, ch: Channel, i: nat)
    requires i < |messages|
  {
    i in ch.published || (!messages[i].noise && i !in ch.unstored)
  }

  /** Which devices a success really reaches, of those it was to reach: exactly the targets of
      the messages that get through. */
  lemma DevicesReached(account: Account, messages: seq<Message>, isSync: bool, extras: seq<string>, ch: Channel,
                       sent: seq<Sent>)
    requires Valid(account, messages, isSync) && |extras| == |messages| == |sent| && AllLookupsDefined(account, messages)
    requires SentAre(account, messages, extras, ch, sent)
    ensures Holding(sent) <= Addressed(sent)
    ensures Holding(sent) == set i | 0 <= i < |messages| && GetsThrough(messages, ch, i) :: messages[i].destinationDeviceId
  {
    assert forall i :: 0 <= i < |sent| ==> messages[i] in messages && sent[i].device.id == messages[i].destinationDeviceId;
    forall i | 0 <= i < |messages| && GetsThrough(messages, ch, i)
      ensures messages[i].destinationDeviceId in Holding(sent)
    {
      assert sent[i] in sent;
    }
  }

  /** One offline device whose store fails: the answer is success and the message is gone. */
  lemma LostUnderSuccess(device: Device, extra: string, sent: seq<Sent>)
    requires device.active && extra != ""
    ensures var account, messages := Account([device], device.id), [Message(device.id, 0, false)];
            && Valid(account, messages, false) && "" !in [extra] && AllLookupsDefined(account, messages)
            && (|sent| == 1 && SentAre(account, messages, [extra], Channel({}, {0}), sent) ==> sent[0].route == Lost)
  {
    var account, messages := Account([device], device.id), [Message(device.id, 0, false)];
    assert device in account.devices && Expects(account, false, device);
    assert messages[0] in messages;
    assert Targets(messages) == {device.id} == Expected(account, false);
    LookupsDefined(account, messages, false);
  }

  /** A noise message to oneself from a device the account does not list passes the device
      check, and its lookup finds nothing. */
  lemma NoiseToUnlistedDevice(devices: seq<Device>, id: nat)
    requires forall d :: d in devices ==> d.id != id
    ensures var account, messages := Account(devices, id), [Message(id, 0, true)];
            Valid(account, messages, true) && !AllLookupsDefined(account, messages)
  {
    var messages := [Message(id, 0, true)];
    assert messages[0] in messages;
  }
}
