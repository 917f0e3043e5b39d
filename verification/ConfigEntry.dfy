/** Editing one configuration entry: what `set` and `unset` do to the buffer, and what every
    run of commands keeps. */
module ConfigEntry {
  import opened Common
  import opened Assoc
  import opened KvText
  import opened KvBuffer

  datatype Kind = Policy | SslProfile | OtherKind

  const MODE: string := "inspection-mode"
  const PROTECTING: string := "protecting-server"
  const IPS_PROFILE: string := "ips-profile"
  const IPS_STATUS: string := "ips-status"
  const SSL_PROFILE: string := "ssl-profile"
  const ACTION: string := "action"

  type Config = map<string, string>

  /** The keys of the entry's type, and those of them a user may not touch. */
  datatype Registry = Registry(valid: set<string>, hidden: set<string>)

  /** A parsed command; the checks on a value are answered by the registry and the store. */
  datatype Command =
    | Set(key: string, val: string, valueOk: bool, refOk: bool)
    | Unset(key: string, extra: bool)

  datatype FieldMode = AnyMode | MultipleClients | ProtectingServer

  function ModeOfField(key: string): FieldMode {
    if key in {"server-cert", "protect-vip", "protect-sni"} then ProtectingServer
    else if key in {"inspection-method", "no-sni", "untrusted-server-cert", "unsupported", "block-sni"} then MultipleClients
    else AnyMode
  }

  /** May the field be set on a profile in this mode (no mode: multiple clients)? */
  predicate FieldAllowed(kind: Kind, key: string, mode: Option<string>) {
    kind != SslProfile || ModeOfField(key) == AnyMode
    || ModeOfField(key) == (if mode == Some(PROTECTING) then ProtectingServer else MultipleClients)
  }

  // ----- the commands, on maps

  function Value(m: Config, key: string): Option<string> {
    if key in m then Some(m[key]) else None
  }

  ghost predicate Fits(m: Config, key: string) {
    key in m || |m| < 64
  }

  ghost function Store(m: Config, key: string, val: string): Config {
    if Fits(m, key) then m[key := Clip(val, 511)] else m
  }

  /** Security profiles go only on accepting policies. */
  predicate Denies(m: Config) {
    Value(m, ACTION) == Some("deny") || Value(m, ACTION) == Some("drop")
  }

  /** Does `set` get past its checks? */
  predicate Accepted(kind: Kind, reg: Registry, m: Config, c: Command)
    requires c.Set?
  {
    && c.key != "" && c.key in reg.valid && c.key !in reg.hidden
    && FieldAllowed(kind, c.key, Value(m, MODE))
    && !(kind == Policy && c.key == IPS_STATUS)
    && !(kind == Policy && (c.key == SSL_PROFILE || c.key == IPS_PROFILE) && Denies(m))
    && c.val != "" && c.valueOk && c.refOk
  }

  predicate UnsetAccepted(kind: Kind, reg: Registry, c: Command)
    requires c.Unset?
  {
    && c.key != "" && !c.extra && c.key in reg.valid && c.key !in reg.hidden
    && !(kind == Policy && c.key == IPS_STATUS)
  }

  /** Only the fields allowed in the entry's mode. */
  ghost function InScope(kind: Kind, m: Config): Config {
    map k | k in m && FieldAllowed(kind, k, Value(m, MODE)) :: m[k]
  }

  /** What follows the setting of a key. */
  ghost function Follow(kind: Kind, m: Config, key: string): Config {
    if kind == SslProfile && key == MODE then InScope(kind, m)
    else if kind == Policy && key == IPS_PROFILE then Store(m, IPS_STATUS, "enable")
    else m
  }

  /** One command. */
  ghost function Step(kind: Kind, reg: Registry, m: Config, c: Command): Config {
    match c
    case Set(key, val, _, _) =>
      if !Accepted(kind, reg, m, c) || !Fits(m, key) then m
      else Follow(kind, Store(m, key, val), key)
    case Unset(key, _) =>
      if !UnsetAccepted(kind, reg, c) then m
      else if kind == Policy && key == IPS_PROFILE then m - {key} - {IPS_STATUS}
      else m - {key}
  }

  ghost function Run(kind: Kind, reg: Registry, m: Config, cs: seq<Command>): Config {
    if cs == [] then m else Step(kind, reg, Run(kind, reg, m, cs[..|cs| - 1]), cs[|cs| - 1])
  }

  // ----- what each command leaves

  /** When `set` changes nothing. */
  ghost predicate SetRefused(kind: Kind, reg: Registry, m: Config, c: Command)
    requires c.Set?
  {
    || c.key == "" || c.key !in reg.valid || c.key in reg.hidden || c.val == "" || !c.valueOk || !c.refOk
    || (kind == SslProfile && OtherModesField(c.key, "inspection-mode" in m && m["inspection-mode"] == "protecting-server"))
    || (kind == Policy && c.key == "ips-status")
    || (kind == Policy && (c.key == "ssl-profile" || c.key == "ips-profile")
        && "action" in m && (m["action"] == "deny" || m["action"] == "drop"))
    || (c.key !in m && |m| >= 64)
  }

  /** Fields of a profile that protects a server, or of one for many clients, in the other mode. */
  ghost predicate OtherModesField(key: string, protecting: bool) {
    if protecting then key in ["inspection-method", "no-sni", "untrusted-server-cert", "unsupported", "block-sni"]
    else key in ["server-cert", "protect-vip", "protect-sni"]
  }

  lemma {:induction false} FieldTable(key: string, mode: Option<string>)
    ensures FieldAllowed(SslProfile, key, mode) <==> !OtherModesField(key, mode == Some("protecting-server"))
  {
    if ModeOfField(key) == AnyMode {
      assert !OtherModesField(key, true) && !OtherModesField(key, false);
    }
  }

  lemma {:induction false} RefusedExactly(kind: Kind, reg: Registry, m: Config, c: Command)
    requires c.Set?
    ensures SetRefused(kind, reg, m, c) <==> !Accepted(kind, reg, m, c) || !Fits(m, c.key)
  {
    FieldTable(c.key, Value(m, "inspection-mode"));
  }

  /** A refused `set` leaves the entry as it is; an accepted one puts the first 511 characters of the
      value under its key, and that is all but for two keys. */
  lemma {:induction false} SetLeaves(kind: Kind, reg: Registry, m: Config, c: Command)
    requires c.Set?
    ensures SetRefused(kind, reg, m, c) ==> Step(kind, reg, m, c) == m
    ensures !SetRefused(kind, reg, m, c) && !(kind == Policy && c.key == "ips-profile") && !(kind == SslProfile && c.key == "inspection-mode")
            ==> Step(kind, reg, m, c) == m[c.key := if |c.val| <= 511 then c.val else c.val[..511]]
  {
    RefusedExactly(kind, reg, m, c);
  }

  /** Naming an IPS profile on a policy also turns its toggle on, if there is a slot for it. */
  lemma {:induction false} SetProfileLeaves(reg: Registry, m: Config, c: Command)
    requires c.Set? && c.key == "ips-profile" && !SetRefused(Policy, reg, m, c)
    ensures var named := m["ips-profile" := if |c.val| <= 511 then c.val else c.val[..511]];
            Step(Policy, reg, m, c)
            == if "ips-status" in m || |named| < 64 then named["ips-status" := "enable"] else named
  {
    RefusedExactly(Policy, reg, m, c);
    KeyNamesDiffer();
  }

  /** Choosing a mode keeps the keys that are not the other mode's, with their values. */
  lemma {:induction false} SetModeLeaves(reg: Registry, m: Config, c: Command, k: string)
    requires c.Set? && c.key == "inspection-mode" && !SetRefused(SslProfile, reg, m, c)
    ensures var put := m["inspection-mode" := if |c.val| <= 511 then c.val else c.val[..511]];
            var r := Step(SslProfile, reg, m, c);
            && (k in r <==> k in put && !OtherModesField(k, put["inspection-mode"] == "protecting-server"))
            && (k in r ==> r[k] == put[k])
  {
    RefusedExactly(SslProfile, reg, m, c);
    var put := m["inspection-mode" := Clip(c.val, 511)];
    FieldTable(k, Some(put["inspection-mode"]));
    assert Step(SslProfile, reg, m, c) == InScope(SslProfile, put);
  }

  /** `unset` takes its key out, on a policy the toggle with the profile, and nothing else. */
  lemma {:induction false} UnsetLeaves(kind: Kind, reg: Registry, m: Config, c: Command)
    requires c.Unset?
    ensures var refused := c.key == "" || c.extra || c.key !in reg.valid || c.key in reg.hidden || (kind == Policy && c.key == "ips-status");
            Step(kind, reg, m, c)
            == if refused then m
               else if kind == Policy && c.key == "ips-profile" then m - {"ips-profile", "ips-status"}
               else m - {c.key}
  {
  }

  // ----- the commands, on the buffer

  /** The keys of a list that its mode does not allow. */
  method OutOfScope(es: Entries, kind: Kind, mode: Option<string>) returns (drop: seq<string>)
    ensures forall k :: k in drop <==> IndexOf(es, k) >= 0 && !FieldAllowed(kind, k, mode)
  {
    drop := [];
    for i := 0 to |es|
      invariant forall k :: k in drop <==> IndexOf(es[..i], k) >= 0 && !FieldAllowed(kind, k, mode)
    {
      forall k
        ensures IndexOf(es[..i + 1], k) >= 0 <==> IndexOf(es[..i], k) >= 0 || es[i].key == k
      {
        assert es[..i + 1][..i] == es[..i];
      }
      if !FieldAllowed(kind, es[i].key, mode) {
        drop := drop + [es[i].key];
      }
    }
    assert es[..|es|] == es;
  }

  method RemoveAll(b: Buffer, keys: seq<string>)
    requires b.Valid()
    modifies b
    ensures b.Valid() && AsMap(b.entries) == old(AsMap(b.entries)) - (set k | k in keys)
    ensures AllPlain(old(b.entries)) ==> AllPlain(b.entries)
  {
    ghost var before := AsMap(b.entries);
    ghost var gone: set<string> := {};
    for i := 0 to |keys|
      invariant b.Valid() && AsMap(b.entries) == before - gone
      invariant AllPlain(old(b.entries)) ==> AllPlain(b.entries)
      invariant forall k :: k in gone <==> k in keys[..i]
    {
      b.Unset(keys[i]);
      gone := gone + {keys[i]};
      assert keys[..i + 1] == keys[..i] + [keys[i]];
    }
    assert keys[..|keys|] == keys;
    assert gone == set k | k in keys;
  }

  /** Drop every value that belongs to the other mode. */
  method Rescope(b: Buffer, kind: Kind)
    requires b.Valid()
    modifies b
    ensures b.Valid() && AsMap(b.entries) == InScope(kind, old(AsMap(b.entries)))
    ensures AllPlain(old(b.entries)) ==> AllPlain(b.entries)
  {
    ghost var es := b.entries;
    var mode := b.Get(MODE);
    var drop := OutOfScope(b.entries, kind, mode);
    RemoveAll(b, drop);
    ScopeByRemoval(es, kind, mode, set k | k in drop);
  }

  lemma {:induction false} ScopeByRemoval(es: Entries, kind: Kind, mode: Option<string>, gone: set<string>)
    requires KvOk(es) && mode == Value(AsMap(es), MODE)
    requires forall k :: k in gone <==> IndexOf(es, k) >= 0 && !FieldAllowed(kind, k, mode)
    ensures AsMap(es) - gone == InScope(kind, AsMap(es))
  {
    forall k
      ensures k in gone <==> k in AsMap(es) && !FieldAllowed(kind, k, mode)
    {
      LookupIsMap(es, k);
    }
  }

  /** The registry's own keys are short enough to be stored whole. */
  ghost predicate ShortKeys(reg: Registry) {
    forall k :: k in reg.valid ==> |k| < 64
  }

  /** The registry's keys are plain, and so is a typed value: it holds no line end. */
  ghost predicate Typable(reg: Registry, c: Command) {
    (forall k :: k in reg.valid ==> PlainKey(k)) && (c.Set? ==> OneLine(c.val))
  }

  lemma {:induction false} ToggleIsPlain()
    ensures PlainKey(IPS_STATUS) && OneLine("enable")
  {
    var k := IPS_STATUS;
    assert |k| == 10 && k[0] == 'i' && k[1] == 'p' && k[2] == 's' && k[3] == '-' && k[4] == 's'
      && k[5] == 't' && k[6] == 'a' && k[7] == 't' && k[8] == 'u' && k[9] == 's';
  }

  /** Execute one command on the entry's buffer. The buffer stays one that survives being saved. */
  method Execute(b: Buffer, kind: Kind, reg: Registry, c: Command)
    requires b.Valid() && ShortKeys(reg)
    modifies b
    ensures b.Valid() && AsMap(b.entries) == Step(kind, reg, old(AsMap(b.entries)), c)
    ensures AllPlain(old(b.entries)) && Typable(reg, c) ==> AllPlain(b.entries)
  {
    match c
    case Set(key, val, valueOk, refOk) =>
      ExecuteSet(b, kind, reg, c);
    case Unset(key, extra) =>
      if key == "" || extra || key !in reg.valid || key in reg.hidden { return; }
      if kind == Policy && key == IPS_STATUS { return; }
      b.Unset(key);
      if kind == Policy && key == IPS_PROFILE { b.Unset(IPS_STATUS); }
  }

  /** The checks of `set`, in order. */
  method CheckSet(b: Buffer, kind: Kind, reg: Registry, c: Command) returns (ok: bool)
    requires b.Valid() && c.Set?
    ensures ok == Accepted(kind, reg, AsMap(b.entries), c)
  {
    if c.key == "" || c.key !in reg.valid || c.key in reg.hidden { return false; }
    var mode := b.Get(MODE);
    if kind == SslProfile && !FieldAllowed(kind, c.key, mode) { return false; }
    if kind == Policy && c.key == IPS_STATUS { return false; }
    if kind == Policy && (c.key == SSL_PROFILE || c.key == IPS_PROFILE) {
      var act := b.Get(ACTION);
      if act == Some("deny") || act == Some("drop") { return false; }
    }
    return c.val != "" && c.valueOk && c.refOk;
  }

  method ExecuteSet(b: Buffer, kind: Kind, reg: Registry, c: Command)
    requires b.Valid() && c.Set? && ShortKeys(reg)
    modifies b
    ensures b.Valid() && AsMap(b.entries) == Step(kind, reg, old(AsMap(b.entries)), c)
    ensures AllPlain(old(b.entries)) && Typable(reg, c) ==> AllPlain(b.entries)
  {
    var ok := CheckSet(b, kind, reg, c);
    if !ok { return; }
    var r := b.Set(c.key, c.val);
    if r != 0 { return; }
    FollowUp(b, kind, c.key);
  }

  method FollowUp(b: Buffer, kind: Kind, key: string)
    requires b.Valid()
    modifies b
    ensures b.Valid() && AsMap(b.entries) == Follow(kind, old(AsMap(b.entries)), key)
    ensures AllPlain(old(b.entries)) ==> AllPlain(b.entries)
  {
    if kind == SslProfile && key == MODE { Rescope(b, kind); }
    if kind == Policy && key == IPS_PROFILE {
      ToggleIsPlain();
      var r := b.Set(IPS_STATUS, "enable");
    }
  }

  // ----- what runs keep: policies

  /** A policy names an IPS profile exactly when its IPS toggle is on. */
  ghost predicate IpsConsistent(m: Config) {
    IPS_PROFILE in m <==> (IPS_STATUS in m && m[IPS_STATUS] == "enable")
  }

  /** The one command that can break the toggle: a new profile taking the last slot. */
  ghost predicate TakesLastSlot(reg: Registry, m: Config, c: Command) {
    && c.Set? && c.key == IPS_PROFILE && Accepted(Policy, reg, m, c)
    && IPS_PROFILE !in m && IPS_STATUS !in m && |m| == 63
  }

  lemma {:induction false} KeyNamesDiffer()
    ensures IPS_PROFILE != IPS_STATUS && IPS_PROFILE != SSL_PROFILE && IPS_STATUS != SSL_PROFILE
    ensures ModeOfField(MODE) == AnyMode && MODE != "server-cert"
    ensures Clip("enable", 511) == "enable"
  {
    assert |IPS_PROFILE| == 11 && |IPS_STATUS| == 10 && |MODE| == 15;
    assert IPS_PROFILE[0] == 'i' && SSL_PROFILE[0] == 's';
    assert |"server-cert"| == 11 && |"protect-vip"| == 11 && |"protect-sni"| == 11;
    assert |"inspection-method"| == 17 && |"no-sni"| == 6 && |"untrusted-server-cert"| == 21 && |"unsupported"| == 11;
    assert |"block-sni"| == 9;
  }

  /** Each command keeps a policy's toggle consistent, that one command excepted. */
  lemma {:induction false} PolicyStep(reg: Registry, m: Config, c: Command)
    requires IpsConsistent(m)
    ensures IpsConsistent(Step(Policy, reg, m, c)) <==> !TakesLastSlot(reg, m, c)
  {
    KeyNamesDiffer();
    if c.key == IPS_PROFILE {
      if c.Set? && Accepted(Policy, reg, m, c) && Fits(m, IPS_PROFILE) {
        NamingAProfile(m, c.val);
      }
    } else {
      var m' := Step(Policy, reg, m, c);
      assert c.Set? && c.key == IPS_STATUS ==> m' == m;
      assert c.Unset? && c.key == IPS_STATUS ==> m' == m;
      assert SameAt(m, m', IPS_PROFILE) && SameAt(m, m', IPS_STATUS);
    }
  }

  /** Storing a profile, and then the toggle if there is a slot for it. */
  lemma {:induction false} NamingAProfile(m: Config, val: string)
    requires IpsConsistent(m) && Fits(m, IPS_PROFILE)
    ensures var m' := Store(Store(m, IPS_PROFILE, val), IPS_STATUS, "enable");
            && IPS_PROFILE in m'
            && (IPS_STATUS in m' && m'[IPS_STATUS] == "enable" <==>
                IPS_STATUS in m || |m| != 63)
  {
    KeyNamesDiffer();
    var m1 := Store(m, IPS_PROFILE, val);
    assert m1.Keys == m.Keys + {IPS_PROFILE};
    assert |m| == |m.Keys| && |m1| == |m1.Keys|;
  }

  /** `u` holds every key that a run can put into the entry, and the buffer has a slot for each. */
  ghost predicate Roomy(reg: Registry, m: Config, u: set<string>) {
    m.Keys <= u && reg.valid <= u && IPS_STATUS in u && |u| <= 64
  }

  lemma {:induction false} StepStaysRoomy(kind: Kind, reg: Registry, m: Config, c: Command, u: set<string>)
    requires Roomy(reg, m, u)
    ensures Roomy(reg, Step(kind, reg, m, c), u)
  {
  }

  lemma {:induction false} RoomForTheToggle(reg: Registry, m: Config, c: Command, u: set<string>)
    requires Roomy(reg, m, u)
    ensures !TakesLastSlot(reg, m, c)
  {
    KeyNamesDiffer();
    var rest := u - {IPS_PROFILE} - {IPS_STATUS};
    if IPS_PROFILE in reg.valid && IPS_PROFILE !in m && IPS_STATUS !in m {
      SubsetIsSmaller(m.Keys, rest);
      assert |m| == |m.Keys|;
    }
  }

  lemma {:induction false} SubsetIsSmaller(a: set<string>, b: set<string>)
    requires a <= b
    ensures |a| <= |b|
    decreases b
  {
    if a != {} {
      var x :| x in a;
      SubsetIsSmaller(a - {x}, b - {x});
    }
  }

  /** Over every run of commands on a policy whose held and registered keys are together at most
      64, a profile is named exactly when the toggle is on. */
  lemma {:induction false} PolicyRuns(reg: Registry, m: Config, cs: seq<Command>, u: set<string>)
    requires IpsConsistent(m) && Roomy(reg, m, u)
    ensures IpsConsistent(Run(Policy, reg, m, cs)) && Roomy(reg, Run(Policy, reg, m, cs), u)
    decreases |cs|
  {
    if cs != [] {
      var init, c := cs[..|cs| - 1], cs[|cs| - 1];
      PolicyRuns(reg, m, init, u);
      var m' := Run(Policy, reg, m, init);
      StepStaysRoomy(Policy, reg, m', c, u);
      RoomForTheToggle(reg, m', c, u);
      PolicyStep(reg, m', c);
    }
  }

  /** The rule holds after command `i` of a run. */
  ghost predicate ConsistentAt(reg: Registry, m: Config, cs: seq<Command>, i: nat)
    requires i <= |cs|
  {
    IpsConsistent(Run(Policy, reg, m, cs[..i]))
  }

  ghost predicate TakesLastSlotAt(reg: Registry, m: Config, cs: seq<Command>, i: nat)
    requires i < |cs|
  {
    TakesLastSlot(reg, Run(Policy, reg, m, cs[..i]), cs[i])
  }

  lemma {:induction false} RunStep(kind: Kind, reg: Registry, m: Config, cs: seq<Command>, i: nat)
    requires i < |cs|
    ensures Run(kind, reg, m, cs[..i + 1]) == Step(kind, reg, Run(kind, reg, m, cs[..i]), cs[i])
  {
    assert cs[..i + 1][..i] == cs[..i] && cs[..i + 1][i] == cs[i];
  }

  /** On any policy, a run keeps the rule after every command if and only if no command of it takes
      the last slot for a new profile. */
  lemma {:induction false} PolicyRunsExactly(reg: Registry, m: Config, cs: seq<Command>)
    requires IpsConsistent(m)
    ensures (forall i {:trigger ConsistentAt(reg, m, cs, i)} :: 0 <= i <= |cs| ==> ConsistentAt(reg, m, cs, i))
            <==> forall i {:trigger TakesLastSlotAt(reg, m, cs, i)} :: 0 <= i < |cs| ==> !TakesLastSlotAt(reg, m, cs, i)
  {
    forall i | 0 <= i < |cs| && ConsistentAt(reg, m, cs, i)
      ensures ConsistentAt(reg, m, cs, i + 1) <==> !TakesLastSlotAt(reg, m, cs, i)
    {
      RunStep(Policy, reg, m, cs, i);
      PolicyStep(reg, Run(Policy, reg, m, cs[..i]), cs[i]);
    }
    if forall i {:trigger TakesLastSlotAt(reg, m, cs, i)} :: 0 <= i < |cs| ==> !TakesLastSlotAt(reg, m, cs, i) {
      for i := 0 to |cs|
        invariant forall k {:trigger ConsistentAt(reg, m, cs, k)} :: 0 <= k <= i ==> ConsistentAt(reg, m, cs, k)
      {
        assert ConsistentAt(reg, m, cs, i) && !TakesLastSlotAt(reg, m, cs, i);
      }
    } else {
      var i :| 0 <= i < |cs| && TakesLastSlotAt(reg, m, cs, i);
      if ConsistentAt(reg, m, cs, i) {
        assert !ConsistentAt(reg, m, cs, i + 1);
      }
    }
  }

  // ----- a policy that loses its toggle

  ghost function Xs(n: nat): string {
    if n == 0 then "" else "x" + Xs(n - 1)
  }

  /** `n` keys that no registry knows: x, xx, xxx, ... */
  ghost function Strangers(n: nat): Entries {
    if n == 0 then [] else Strangers(n - 1) + [Pair(Xs(n), "")]
  }

  lemma {:induction false} XsAre(n: nat)
    ensures |Xs(n)| == n && forall i :: 0 <= i < n ==> Xs(n)[i] == 'x'
  {
    if n > 0 { XsAre(n - 1); }
  }

  lemma {:induction false} StrangersAre(n: nat)
    ensures |Strangers(n)| == n && forall i :: 0 <= i < n ==> Strangers(n)[i] == Pair(Xs(i + 1), "")
  {
    if n > 0 { StrangersAre(n - 1); }
  }

  lemma {:induction false} StrangersArePlain(n: nat)
    requires n < 64
    ensures AllPlain(Strangers(n)) && DistinctKeys(Strangers(n))
  {
    StrangersAre(n);
    var es := Strangers(n);
    forall i | 0 <= i < n
      ensures Plain(es[i]) && es[i].key[0] == 'x' && |es[i].key| == i + 1
    {
      XsAre(i + 1);
    }
    forall i, j | 0 <= i < j < n
      ensures Differ(es, i, j)
    {
      assert |es[i].key| == i + 1 && |es[j].key| == j + 1;
    }
  }

  /** A saved policy with 63 keys outside the registry, loaded and given a profile, loses the toggle. */
  lemma {:induction false} LastSlotCanBeTaken(reg: Registry, n: nat)
    requires IPS_PROFILE in reg.valid && IPS_PROFILE !in reg.hidden && n == 63
    ensures var m := AsMap(ApplyLines([], LinesOf(TextOf(Strangers(n)))));
            var c := Set(IPS_PROFILE, "1", true, true);
            && IpsConsistent(m) && TakesLastSlot(reg, m, c)
            && !IpsConsistent(Step(Policy, reg, m, c))
  {
    var es := Strangers(n);
    StrangersAre(n);
    StrangersArePlain(n);
    assert [] + es == es;
    WrittenReadsBack([], es);
    SizeIsMapSize(es);
    NotAStranger(n, IPS_PROFILE);
    NotAStranger(n, IPS_STATUS);
    NotAStranger(n, ACTION);
    KeyNamesDiffer();
    PolicyStep(reg, AsMap(es), Set(IPS_PROFILE, "1", true, true));
  }

  lemma {:induction false} NotAStranger(n: nat, key: string)
    requires n < 64 && key != "" && key[0] != 'x'
    ensures key !in AsMap(Strangers(n))
  {
    StrangersAre(n);
    StrangersArePlain(n);
    var es := Strangers(n);
    forall i | 0 <= i < n
      ensures es[i].key != key
    {
      XsAre(i + 1);
    }
    LookupIsMap(es, key);
  }

  // ----- what runs keep: SSL profiles

  ghost predicate AllAllowed(m: Config) {
    forall k :: k in m ==> FieldAllowed(SslProfile, k, Value(m, MODE))
  }

  /** The one command that can leave a field behind: dropping the mode of a profile that holds
      a field of the protecting-server mode. */
  ghost predicate StrandsFields(reg: Registry, m: Config, c: Command) {
    && c.Unset? && c.key == MODE && UnsetAccepted(SslProfile, reg, c)
    && exists k :: k in m && ModeOfField(k) == ProtectingServer
  }

  /** Such a profile: protecting-server mode with its certificate. */
  lemma {:induction false} FieldsCanBeStranded(reg: Registry, cert: string)
    requires MODE in reg.valid && MODE !in reg.hidden
    ensures var m := map[MODE := PROTECTING, "server-cert" := cert];
            var c := Unset(MODE, false);
            AllAllowed(m) && StrandsFields(reg, m, c) && !AllAllowed(Step(SslProfile, reg, m, c))
  {
    KeyNamesDiffer();
    var m, c := map[MODE := PROTECTING, "server-cert" := cert], Unset(MODE, false);
    assert ModeOfField("server-cert") == ProtectingServer;
    assert "server-cert" in m;
    SslStep(reg, m, c);
  }

  /** Each command keeps all held fields allowed in the current mode, that one command excepted. */
  lemma {:induction false} SslStep(reg: Registry, m: Config, c: Command)
    requires AllAllowed(m)
    ensures AllAllowed(Step(SslProfile, reg, m, c)) <==> !StrandsFields(reg, m, c)
  {
    KeyNamesDiffer();
    var m' := Step(SslProfile, reg, m, c);
    if c.Unset? && c.key == MODE && UnsetAccepted(SslProfile, reg, c) {
      assert Value(m', MODE) == None;
      if StrandsFields(reg, m, c) {
        var k :| k in m && ModeOfField(k) == ProtectingServer;
        assert k in m';
      }
    } else {
      forall k | k in m'
        ensures FieldAllowed(SslProfile, k, Value(m', MODE))
      {
        if c.key == MODE && c.Set? && m' != m {
          var m1 := Store(m, MODE, c.val);
          assert FieldAllowed(SslProfile, MODE, Value(m1, MODE)) && Value(m', MODE) == Value(m1, MODE);
        }
      }
    }
  }

  /** Setting the mode puts any profile right again, however its fields came to be there. */
  lemma {:induction false} SetModeRepairs(reg: Registry, m: Config, c: Command)
    requires c.Set? && c.key == MODE && Accepted(SslProfile, reg, m, c) && Fits(m, MODE)
    ensures AllAllowed(Step(SslProfile, reg, m, c))
  {
    KeyNamesDiffer();
    var m1, m' := Store(m, MODE, c.val), Step(SslProfile, reg, m, c);
    assert FieldAllowed(SslProfile, MODE, Value(m1, MODE)) && Value(m', MODE) == Value(m1, MODE);
  }

  ghost predicate AllowedAt(reg: Registry, m: Config, cs: seq<Command>, i: nat)
    requires i <= |cs|
  {
    AllAllowed(Run(SslProfile, reg, m, cs[..i]))
  }

  ghost predicate StrandsAt(reg: Registry, m: Config, cs: seq<Command>, i: nat)
    requires i < |cs|
  {
    StrandsFields(reg, Run(SslProfile, reg, m, cs[..i]), cs[i])
  }

  /** A run keeps all held fields allowed after every command if and only if no command of it
      strands fields. */
  lemma {:induction false} SslRunsExactly(reg: Registry, m: Config, cs: seq<Command>)
    requires AllAllowed(m)
    ensures (forall i {:trigger AllowedAt(reg, m, cs, i)} :: 0 <= i <= |cs| ==> AllowedAt(reg, m, cs, i))
            <==> forall i {:trigger StrandsAt(reg, m, cs, i)} :: 0 <= i < |cs| ==> !StrandsAt(reg, m, cs, i)
  {
    forall i | 0 <= i < |cs| && AllowedAt(reg, m, cs, i)
      ensures AllowedAt(reg, m, cs, i + 1) <==> !StrandsAt(reg, m, cs, i)
    {
      RunStep(SslProfile, reg, m, cs, i);
      SslStep(reg, Run(SslProfile, reg, m, cs[..i]), cs[i]);
    }
    if forall i {:trigger StrandsAt(reg, m, cs, i)} :: 0 <= i < |cs| ==> !StrandsAt(reg, m, cs, i) {
      for i := 0 to |cs|
        invariant forall k {:trigger AllowedAt(reg, m, cs, k)} :: 0 <= k <= i ==> AllowedAt(reg, m, cs, k)
      {
        assert AllowedAt(reg, m, cs, i) && !StrandsAt(reg, m, cs, i);
      }
    } else {
      var i :| 0 <= i < |cs| && StrandsAt(reg, m, cs, i);
      if AllowedAt(reg, m, cs, i) {
        assert !AllowedAt(reg, m, cs, i + 1);
      }
    }
  }

  /** Over every run that does not unset the mode, all held fields stay allowed. */
  lemma {:induction false} SslRuns(reg: Registry, m: Config, cs: seq<Command>)
    requires AllAllowed(m) && forall i :: 0 <= i < |cs| ==> !(cs[i].Unset? && cs[i].key == MODE)
    ensures AllAllowed(Run(SslProfile, reg, m, cs))
    decreases |cs|
  {
    if cs != [] {
      SslRuns(reg, m, cs[..|cs| - 1]);
      SslStep(reg, Run(SslProfile, reg, m, cs[..|cs| - 1]), cs[|cs| - 1]);
    }
  }

  // ----- a schedule that is too long to be saved

  /** The update schedule of the IPS settings, one value in five of its fields. */
  ghost function Schedule(v: string): Entries {
    [Pair("cron-minutes", v), Pair("cron-hours", v), Pair("cron-months", v), Pair("cron-dom", v), Pair("cron-desc", v)]
  }

  lemma {:induction false} CronMinutesIsPlain()
    ensures PlainKey("cron-minutes") && |"cron-minutes"| == 12
  {
    var k := "cron-minutes";
    assert k[0] == 'c' && k[1] == 'r' && k[2] == 'o' && k[3] == 'n' && k[4] == '-' && k[5] == 'm' && k[6] == 'i'
      && k[7] == 'n' && k[8] == 'u' && k[9] == 't' && k[10] == 'e' && k[11] == 's';
  }

  lemma {:induction false} CronHoursIsPlain()
    ensures PlainKey("cron-hours") && |"cron-hours"| == 10
  {
    var k := "cron-hours";
    assert k[0] == 'c' && k[1] == 'r' && k[2] == 'o' && k[3] == 'n' && k[4] == '-' && k[5] == 'h' && k[6] == 'o'
      && k[7] == 'u' && k[8] == 'r' && k[9] == 's';
  }

  lemma {:induction false} CronMonthsIsPlain()
    ensures PlainKey("cron-months") && |"cron-months"| == 11
  {
    var k := "cron-months";
    assert k[0] == 'c' && k[1] == 'r' && k[2] == 'o' && k[3] == 'n' && k[4] == '-' && k[5] == 'm' && k[6] == 'o'
      && k[7] == 'n' && k[8] == 't' && k[9] == 'h' && k[10] == 's';
  }

  lemma {:induction false} CronDomIsPlain()
    ensures PlainKey("cron-dom") && |"cron-dom"| == 8
  {
    var k := "cron-dom";
    assert k[0] == 'c' && k[1] == 'r' && k[2] == 'o' && k[3] == 'n' && k[4] == '-' && k[5] == 'd' && k[6] == 'o'
      && k[7] == 'm';
  }

  lemma {:induction false} CronDescIsPlain()
    ensures PlainKey("cron-desc") && |"cron-desc"| == 9
  {
    var k := "cron-desc";
    assert k[0] == 'c' && k[1] == 'r' && k[2] == 'o' && k[3] == 'n' && k[4] == '-' && k[5] == 'd' && k[6] == 'e'
      && k[7] == 's' && k[8] == 'c';
  }

  lemma {:induction false} ScheduleIsPlain(v: string)
    requires OneLine(v) && |v| < 512
    ensures AllPlain(Schedule(v)) && KvOk(Schedule(v))
  {
    CronMinutesIsPlain();
    CronHoursIsPlain();
    CronMonthsIsPlain();
    CronDomIsPlain();
    CronDescIsPlain();
    var es := Schedule(v);
    assert |es[0].key| == 12 && |es[1].key| == 10 && |es[2].key| == 11 && |es[3].key| == 8 && |es[4].key| == 9;
  }

  lemma {:induction false} ScheduleLength(v: string)
    ensures |TextOf(Schedule(v))| == 60 + 5 * |v|
  {
    var es := Schedule(v);
    var t4, t3, t2, t1 := es[4..], es[3..], es[2..], es[1..];
    assert t4[1..] == [] && t3[1..] == t4 && t2[1..] == t3 && t1[1..] == t2;
    CronMinutesIsPlain();
    CronHoursIsPlain();
    CronMonthsIsPlain();
    CronDomIsPlain();
    CronDescIsPlain();
    assert |TextOf(t4)| == 11 + |v|;
    assert |TextOf(t3)| == |TextOf(t4)| + 10 + |v|;
    assert |TextOf(t2)| == |TextOf(t3)| + 13 + |v|;
    assert |TextOf(t1)| == |TextOf(t2)| + 12 + |v|;
  }

  /** Saving the schedule and loading it gives it back if and only if the values have at most 397
      characters; a command line has room for over 490. */
  lemma {:induction false} LongScheduleIsCut(v: string)
    requires OneLine(v) && |v| < 512
    ensures ApplyLines([], LinesOf(Clip(TextOf(Schedule(v)), 2047))) == Schedule(v) <==> |v| <= 397
  {
    ScheduleIsPlain(v);
    ScheduleLength(v);
    SavedReadsBack(Schedule(v), 2048);
  }
}
