/** The sing-box JSON route rule codec of `routing.rs`. */
module SingboxRule {
  import opened Wrappers
  import opened RouteRule

  datatype Json =
    | JNull
    | JBool(b: bool)
    | JInt(i: int)
    | JFloat(text: string)
    | JStr(s: string)
    | JArr(items: seq<Json>)
    | JObj(entries: Object)

  /** Member names. The ones the codec looks at have a constructor of their own. */
  datatype Key =
    | TypeKey          // "type"
    | ModeKey          // "mode"
    | RulesKey         // "rules"
    | OutboundKey      // "outbound"
    | DomainKey        // "domain"
    | DomainSuffixKey  // "domain_suffix"
    | DomainKeywordKey // "domain_keyword"
    | IpCidrKey        // "ip_cidr"
    | ProcessNameKey   // "process_name"
    | RuleSetKey       // "rule_set"
    | PortKey          // "port"
    | OtherKey(name: string)

  type Object = map<Key, Json>

  /** `rule.get(key)`: only an object has members. */
  function Member(rule: Json, key: Key): Option<Json> {
    if rule.JObj? && key in rule.entries then Some(rule.entries[key]) else None
  }

  /** The private ranges a `GEOIP,LAN` reference stands for. */
  const PRIVATE_NETWORK_CIDRS := [
    "0.0.0.0/8", "10.0.0.0/8", "100.64.0.0/10", "127.0.0.0/8", "169.254.0.0/16",
    "172.16.0.0/12", "192.168.0.0/16", "::1/128", "fc00::/7", "fe80::/10"
  ]

  // ---------- the model to JSON ----------

  function Strings(values: seq<string>): seq<Json> {
    seq(|values|, i requires 0 <= i < |values| => JStr(values[i]))
  }

  /** The object key and array a field is written as; no value for an unmappable geo set. */
  function Entry(field: MatchField, geo: GeoNames): Option<(Key, seq<Json>)> {
    match field
    case Domain(v) => Some((DomainKey, [JStr(v)]))
    case DomainSuffix(v) => Some((DomainSuffixKey, [JStr(v)]))
    case DomainKeyword(v) => Some((DomainKeywordKey, [JStr(v)]))
    case IpCidr(v) => Some((IpCidrKey, [JStr(v)]))
    case Port(port) => Some((PortKey, [JInt(port)]))
    case Process(v) => Some((ProcessNameKey, [JStr(v)]))
    case RuleSet(v) => Some((RuleSetKey, [JStr(v)]))
    case GeoSet(kind, v) =>
      match geo(kind, v)
      case PrivateNetworks => Some((IpCidrKey, Strings(PRIVATE_NETWORK_CIDRS)))
      case RuleSetTag(tag) => Some((RuleSetKey, [JStr(tag)]))
      case Unmappable => None
  }

  /** Arrays written under one key are appended to each other. */
  function Appended(rule: Object, key: Key, items: seq<Json>): Object {
    if key in rule && rule[key].JArr? then rule[key := JArr(rule[key].items + items)]
    else rule[key := JArr(items)]
  }

  function WithFields(matches: seq<MatchField>, geo: GeoNames): Option<Object> {
    if matches == [] then Some(map[])
    else match (WithFields(matches[..|matches| - 1], geo), Entry(matches[|matches| - 1], geo))
      case (Some(rule), Some(entry)) => Some(Appended(rule, entry.0, entry.1))
      case _ => None
  }

  function TargetJson(target: RuleTarget): Json {
    match target
    case Outbound(name) => JStr(name)
    case Direct => JStr("direct")
    case Block => JStr("block")
  }

  function AllSingbox(rules: seq<IRouteRule>, geo: GeoNames): Option<seq<Json>>
    decreases rules
  {
    if rules == [] then Some([])
    else match (AllSingbox(rules[..|rules| - 1], geo), Singbox(rules[|rules| - 1], geo))
      case (Some(inner), Some(last)) => Some(inner + [last])
      case _ => None
  }

  /** What `to_singbox_json` returns. */
  function Singbox(rule: IRouteRule, geo: GeoNames): Option<Json>
    decreases rule
  {
    match rule
    case Raw(_) => None
    case Simple(matches, target) =>
      (match WithFields(matches, geo)
       case None => None
       case Some(obj) => Some(JObj(obj[OutboundKey := TargetJson(target)])))
    case Logical(op, rules, target) =>
      match AllSingbox(rules, geo)
      case None => None
      case Some(inner) => Some(JObj(map[
        TypeKey := JStr("logical"), ModeKey := JStr(if op == And then "and" else "or"),
        RulesKey := JArr(inner), OutboundKey := TargetJson(target)]))
  }

  /** A JSON object under construction. */
  class RuleObject {
    var entries: Object

    constructor ()
      ensures entries == map[]
    {
      entries := map[];
    }

    /** `field_to_singbox`: false leaves the object unchanged. */
    method AddField(field: MatchField, geo: GeoNames) returns (ok: bool)
      modifies this
      ensures ok == Entry(field, geo).Some?
      ensures ok ==> entries == Appended(old(entries), Entry(field, geo).value.0, Entry(field, geo).value.1)
      ensures !ok ==> entries == old(entries)
    {
      var entry := Entry(field, geo);
      if entry.None? {
        return false;
      }
      var (key, items) := entry.value;
      if key in entries && entries[key].JArr? {
        entries := entries[key := JArr(entries[key].items + items)];
      } else {
        entries := entries[key := JArr(items)];
      }
      return true;
    }
  }

  /** `to_singbox_json`. */
  method ToSingboxJson(rule: IRouteRule, geo: GeoNames) returns (json: Option<Json>)
    ensures json == Singbox(rule, geo)
    decreases rule
  {
    match rule
    case Raw(_) => json := None;
    case Simple(matches, target) =>
      var obj := new RuleObject();
      for i := 0 to |matches|
        invariant fresh(obj)
        invariant WithFields(matches[..i], geo) == Some(obj.entries)
      {
        assert matches[..i + 1][..i] == matches[..i];
        var ok := obj.AddField(matches[i], geo);
        if !ok {
          NoneStays(matches, i + 1, geo);
          return None;
        }
      }
      assert matches[..|matches|] == matches;
      obj.entries := obj.entries[OutboundKey := TargetJson(target)];
      json := Some(JObj(obj.entries));
    case Logical(op, rules, target) =>
      var inner: seq<Json> := [];
      for i := 0 to |rules|
        invariant AllSingbox(rules[..i], geo) == Some(inner)
      {
        assert rules[..i + 1][..i] == rules[..i];
        var one := ToSingboxJson(rules[i], geo);
        if one.None? {
          NoRuleStays(rules, i + 1, geo);
          return None;
        }
        inner := inner + [one.value];
      }
      assert rules[..|rules|] == rules;
      json := Some(JObj(map[
        TypeKey := JStr("logical"), ModeKey := JStr(if op == And then "and" else "or"),
        RulesKey := JArr(inner), OutboundKey := TargetJson(target)]));
  }

  lemma {:induction false} NoneStays(matches: seq<MatchField>, n: nat, geo: GeoNames)
    requires n <= |matches| && WithFields(matches[..n], geo).None?
    ensures WithFields(matches, geo).None?
  {
    if n == |matches| {
      assert matches[..n] == matches;
    } else {
      assert matches[..|matches| - 1][..n] == matches[..n];
      NoneStays(matches[..|matches| - 1], n, geo);
    }
  }

  lemma {:induction false} NoRuleStays(rules: seq<IRouteRule>, n: nat, geo: GeoNames)
    requires n <= |rules| && AllSingbox(rules[..n], geo).None?
    ensures AllSingbox(rules, geo).None?
  {
    if n == |rules| {
      assert rules[..n] == rules;
    } else {
      assert rules[..|rules| - 1][..n] == rules[..n];
      NoRuleStays(rules[..|rules| - 1], n, geo);
    }
  }

  // ---------- JSON to the model ----------

  function TargetFromSingbox(rule: Json): Option<RuleTarget> {
    match Member(rule, OutboundKey)
    case Some(JStr(s)) => Some(if s == "direct" then Direct else if s == "block" then Block else Outbound(s))
    case _ => None
  }

  /** The fields in the order the reader looks for them; ports come last. */
  const SLOTS := 7

  function SlotKey(slot: nat): Key
    requires slot < SLOTS
  {
    match slot
    case 0 => DomainKey
    case 1 => DomainSuffixKey
    case 2 => DomainKeywordKey
    case 3 => IpCidrKey
    case 4 => ProcessNameKey
    case 5 => RuleSetKey
    case _ => PortKey
  }

  function SlotField(slot: nat, v: string): MatchField
    requires slot < SLOTS - 1
  {
    match slot
    case 0 => Domain(v)
    case 1 => DomainSuffix(v)
    case 2 => DomainKeyword(v)
    case 3 => IpCidr(v)
    case 4 => Process(v)
    case _ => RuleSet(v)
  }

  /** The first element of the array under a slot's key. */
  function SlotValue(rule: Json, slot: nat): Option<Json>
    requires slot < SLOTS
  {
    match Member(rule, SlotKey(slot))
    case Some(JArr(items)) => if items == [] then None else Some(items[0])
    case _ => None
  }

  /** The fields read from `slot` on; no value when the port is not a 16-bit number. */
  function FieldsFrom(rule: Json, slot: nat): Option<seq<MatchField>>
    requires slot < SLOTS
    decreases SLOTS - slot
  {
    if slot == SLOTS - 1 then
      match SlotValue(rule, slot)
      case None => Some([])
      case Some(JInt(i)) => if 0 <= i < PORT_BOUND then Some([Port(i)]) else None
      case Some(_) => None
    else match FieldsFrom(rule, slot + 1)
      case None => None
      case Some(rest) =>
        if SlotValue(rule, slot).Some? && SlotValue(rule, slot).value.JStr?
        then Some([SlotField(slot, SlotValue(rule, slot).value.s)] + rest)
        else Some(rest)
  }

  /** `simple_from_singbox`. */
  function SimpleFromSingbox(rule: Json): Option<IRouteRule> {
    match (FieldsFrom(rule, 0), TargetFromSingbox(rule))
    case (Some(matches), Some(target)) => Some(Simple(matches, target))
    case _ => None
  }

  function AllFromSingbox(rules: seq<Json>): Option<seq<IRouteRule>>
    decreases rules
  {
    if rules == [] then Some([])
    else match (AllFromSingbox(rules[..|rules| - 1]), FromSingbox(rules[|rules| - 1]))
      case (Some(inner), Some(last)) => Some(inner + [last])
      case _ => None
  }

  /** `from_singbox_json`. */
  function FromSingbox(rule: Json): Option<IRouteRule>
    decreases rule
  {
    if Member(rule, TypeKey) == Some(JStr("logical")) then
      if Member(rule, ModeKey) !in {Some(JStr("and")), Some(JStr("or"))} then None
      else match Member(rule, RulesKey)
        case Some(JArr(items)) =>
          (match (AllFromSingbox(items), TargetFromSingbox(rule))
           case (Some(rules), Some(target)) =>
             Some(Logical(if Member(rule, ModeKey) == Some(JStr("and")) then And else Or, rules, target))
           case _ => None)
        case _ => None
    else SimpleFromSingbox(rule)
  }

  // ---------- when the model can be written ----------

  /** Neither a verbatim rule nor an unmappable geo set occurs anywhere in the tree. */
  predicate Expressible(rule: IRouteRule, geo: GeoNames) {
    match rule
    case Raw(_) => false
    case Simple(matches, _) =>
      forall i | 0 <= i < |matches| :: matches[i].GeoSet? ==> geo(matches[i].kind, matches[i].v) != Unmappable
    case Logical(_, rules, _) => forall i | 0 <= i < |rules| :: Expressible(rules[i], geo)
  }

  lemma {:induction false} FieldsExpressible(matches: seq<MatchField>, geo: GeoNames)
    ensures WithFields(matches, geo).Some?
      <==> forall i | 0 <= i < |matches| :: matches[i].GeoSet? ==> geo(matches[i].kind, matches[i].v) != Unmappable
  {
    if matches != [] {
      var init := matches[..|matches| - 1];
      FieldsExpressible(init, geo);
      assert matches == init + [matches[|matches| - 1]];
    }
  }

  /** `to_singbox_json` fails exactly on a verbatim rule or an unmappable geo set, at any depth. */
  lemma {:induction false} SucceedsExactly(rule: IRouteRule, geo: GeoNames)
    ensures Singbox(rule, geo).Some? <==> Expressible(rule, geo)
    decreases rule, 0
  {
    match rule
    case Raw(_) =>
    case Simple(matches, _) => FieldsExpressible(matches, geo);
    case Logical(_, rules, _) => AllSucceedExactly(rules, geo);
  }

  lemma {:induction false} AllSucceedExactly(rules: seq<IRouteRule>, geo: GeoNames)
    ensures AllSingbox(rules, geo).Some? <==> forall i | 0 <= i < |rules| :: Expressible(rules[i], geo)
    decreases rules
  {
    if rules != [] {
      var init := rules[..|rules| - 1];
      AllSucceedExactly(init, geo);
      SucceedsExactly(rules[|rules| - 1], geo);
      assert rules == init + [rules[|rules| - 1]];
    }
  }

  // ---------- what is written under each key ----------

  /** What one field puts under a key. */
  function ValuesUnder(key: Key, field: MatchField, geo: GeoNames): seq<Json> {
    match key
    case DomainKey => if field.Domain? then [JStr(field.v)] else []
    case DomainSuffixKey => if field.DomainSuffix? then [JStr(field.v)] else []
    case DomainKeywordKey => if field.DomainKeyword? then [JStr(field.v)] else []
    case IpCidrKey =>
      if field.IpCidr? then [JStr(field.v)]
      else if field.GeoSet? && geo(field.kind, field.v).PrivateNetworks? then Strings(PRIVATE_NETWORK_CIDRS)
      else []
    case ProcessNameKey => if field.Process? then [JStr(field.v)] else []
    case RuleSetKey =>
      if field.RuleSet? then [JStr(field.v)]
      else if field.GeoSet? && geo(field.kind, field.v).RuleSetTag? then [JStr(geo(field.kind, field.v).tag)]
      else []
    case PortKey => if field.Port? then [JInt(field.port)] else []
    case _ => []
  }

  function AllUnder(key: Key, matches: seq<MatchField>, geo: GeoNames): seq<Json> {
    if matches == [] then []
    else AllUnder(key, matches[..|matches| - 1], geo) + ValuesUnder(key, matches[|matches| - 1], geo)
  }

  lemma EntryUnder(key: Key, field: MatchField, geo: GeoNames)
    ensures Entry(field, geo).Some? ==>
      var (own, items) := Entry(field, geo).value;
      ValuesUnder(key, field, geo) == (if key == own then items else []) && items != []
  {
  }

  lemma {:induction false} FieldsUnder(key: Key, matches: seq<MatchField>, geo: GeoNames)
    requires WithFields(matches, geo).Some?
    ensures Lookup(WithFields(matches, geo).value, key)
         == if AllUnder(key, matches, geo) == [] then None else Some(JArr(AllUnder(key, matches, geo)))
  {
    if matches != [] {
      FieldsUnder(key, matches[..|matches| - 1], geo);
      EntryUnder(key, matches[|matches| - 1], geo);
      var before, added := AllUnder(key, matches[..|matches| - 1], geo), ValuesUnder(key, matches[|matches| - 1], geo);
      assert added == [] ==> before + added == before;
      assert before == [] ==> before + added == added;
      assert added != [] ==> before + added != [];
    }
  }

  /** A written rule holds under every key what all its fields put there, in their order, and
      under `outbound` its target; so no condition is lost. */
  lemma WrittenUnder(key: Key, matches: seq<MatchField>, target: RuleTarget, geo: GeoNames)
    requires Singbox(Simple(matches, target), geo).Some?
    ensures Member(Singbox(Simple(matches, target), geo).value, key)
         == if key == OutboundKey then
              Some(JStr(match target case Outbound(name) => name case Direct => "direct" case Block => "block"))
            else if AllUnder(key, matches, geo) == [] then None
            else Some(JArr(AllUnder(key, matches, geo)))
  {
    FieldsUnder(key, matches, geo);
  }

  // ---------- round trips ----------

  function Slot(field: MatchField): nat {
    match field
    case Domain(_) => 0
    case DomainSuffix(_) => 1
    case DomainKeyword(_) => 2
    case IpCidr(_) => 3
    case Process(_) => 4
    case RuleSet(_) => 5
    case Port(_) => 6
    case GeoSet(_, _) => SLOTS
  }

  /** At most one field of each kind, in the reader's order, without geo sets. */
  predicate CanonicalFields(matches: seq<MatchField>) {
    && (forall i | 0 <= i < |matches| :: Slot(matches[i]) < SLOTS && (matches[i].Port? ==> matches[i].port < PORT_BOUND))
    && (forall i, j | 0 <= i < j < |matches| :: Slot(matches[i]) < Slot(matches[j]))
  }

  /** An outbound is not spelled with one of the two reserved names. */
  predicate CanonicalTarget(target: RuleTarget) {
    target.Outbound? ==> target.name != "direct" && target.name != "block"
  }

  predicate Canonical(rule: IRouteRule) {
    match rule
    case Raw(_) => false
    case Simple(matches, target) => CanonicalFields(matches) && CanonicalTarget(target)
    case Logical(_, rules, target) => CanonicalTarget(target) && forall i | 0 <= i < |rules| :: Canonical(rules[i])
  }

  /** The single JSON value of a field that is no geo set. */
  function Payload(field: MatchField): Json {
    if field.Port? then JInt(field.port) else JStr(field.v)
  }

  /** What a list of fields leaves under one slot's key. */
  function Held(matches: seq<MatchField>, slot: nat): Option<Json> {
    if matches == [] then None
    else
      var last := matches[|matches| - 1];
      if Slot(last) == slot then Some(JArr([Payload(last)])) else Held(matches[..|matches| - 1], slot)
  }

  lemma {:induction false} HeldAt(matches: seq<MatchField>, k: nat)
    requires CanonicalFields(matches) && k < |matches|
    ensures Held(matches, Slot(matches[k])) == Some(JArr([Payload(matches[k])]))
  {
    if k < |matches| - 1 {
      var init := matches[..|matches| - 1];
      assert init[k] == matches[k];
      HeldAt(init, k);
    }
  }

  lemma {:induction false} HeldNowhere(matches: seq<MatchField>, slot: nat)
    requires forall i | 0 <= i < |matches| :: Slot(matches[i]) != slot
    ensures Held(matches, slot) == None
  {
    if matches != [] {
      HeldNowhere(matches[..|matches| - 1], slot);
    }
  }

  /** Under the slot keys the written object holds exactly what the fields say, and it has no other key. */
  ghost predicate Represents(obj: Object, matches: seq<MatchField>) {
    && (forall slot: nat | slot < SLOTS :: Member(JObj(obj), SlotKey(slot)) == Held(matches, slot))
    && TypeKey !in obj
  }

  lemma {:induction false} FieldsRepresented(matches: seq<MatchField>, geo: GeoNames)
    requires CanonicalFields(matches)
    ensures WithFields(matches, geo).Some? && Represents(WithFields(matches, geo).value, matches)
  {
    if matches != [] {
      var n := |matches| - 1;
      var init, last := matches[..n], matches[n];
      FieldsRepresented(init, geo);
      HeldNowhere(init, Slot(last));
      var obj := WithFields(init, geo).value;
      assert Entry(last, geo) == Some((SlotKey(Slot(last)), [Payload(last)]));
      assert Member(JObj(obj), SlotKey(Slot(last))) == None;
      assert WithFields(matches, geo).value == obj[SlotKey(Slot(last)) := JArr([Payload(last)])];
    }
  }

  lemma PayloadField(field: MatchField)
    requires Slot(field) < SLOTS - 1
    ensures Payload(field).JStr? && SlotField(Slot(field), Payload(field).s) == field
  {
  }

  /** Reading from a slot on finds exactly the fields whose slot is not smaller. */
  lemma {:induction false} FieldsReadBack(rule: Json, matches: seq<MatchField>, slot: nat, k: nat)
    requires CanonicalFields(matches)
    requires forall s: nat | s < SLOTS :: Member(rule, SlotKey(s)) == Held(matches, s)
    requires slot < SLOTS && k <= |matches|
    requires forall i | 0 <= i < k :: Slot(matches[i]) < slot
    requires forall i | k <= i < |matches| :: slot <= Slot(matches[i])
    ensures FieldsFrom(rule, slot) == Some(matches[k..])
    decreases SLOTS - slot
  {
    if k < |matches| && Slot(matches[k]) == slot {
      HeldAt(matches, k);
      assert SlotValue(rule, slot) == Some(Payload(matches[k]));
      assert matches[k..] == [matches[k]] + matches[k + 1..];
      if slot == SLOTS - 1 {
        assert matches[k].Port? && matches[k..] == [matches[k]];
      } else {
        PayloadField(matches[k]);
        FieldsReadBack(rule, matches, slot + 1, k + 1);
      }
    } else {
      HeldNowhere(matches, slot);
      assert SlotValue(rule, slot) == None;
      if slot == SLOTS - 1 {
        assert k == |matches| && matches[k..] == [];
      } else {
        FieldsReadBack(rule, matches, slot + 1, k);
      }
    }
  }

  lemma TargetReadsBack(json: Json, target: RuleTarget)
    requires CanonicalTarget(target)
    requires Member(json, OutboundKey) == Some(TargetJson(target))
    ensures TargetFromSingbox(json) == Some(target)
  {
    assert "direct"[0] == 'd' && "block"[0] == 'b';
  }

  lemma SimpleWriteRead(matches: seq<MatchField>, target: RuleTarget, geo: GeoNames)
    requires CanonicalFields(matches) && CanonicalTarget(target)
    ensures WithFields(matches, geo).Some?
    ensures SimpleFromSingbox(JObj(WithFields(matches, geo).value[OutboundKey := TargetJson(target)])) == Some(Simple(matches, target))
    ensures TypeKey !in WithFields(matches, geo).value
  {
    FieldsRepresented(matches, geo);
    var obj := WithFields(matches, geo).value;
    var json := JObj(obj[OutboundKey := TargetJson(target)]);
    forall s: nat | s < SLOTS
      ensures Member(json, SlotKey(s)) == Held(matches, s)
    {
      assert Member(json, SlotKey(s)) == Member(JObj(obj), SlotKey(s));
    }
    FieldsReadBack(json, matches, 0, 0);
    assert matches[0..] == matches;
    TargetReadsBack(json, target);
  }

  /** A canonical rule, nested ones included, is written and read back unchanged. */
  lemma {:induction false} WriteRead(rule: IRouteRule, geo: GeoNames)
    requires Canonical(rule)
    ensures Singbox(rule, geo).Some? && FromSingbox(Singbox(rule, geo).value) == Some(rule)
    decreases rule, 0
  {
    if rule.Simple? {
      SimpleWriteRead(rule.matches, rule.target, geo);
      var json := Singbox(rule, geo).value;
      assert Member(json, TypeKey) == None;
    } else {
      AllWriteRead(rule.rules, geo);
      var json := Singbox(rule, geo).value;
      TargetReadsBack(json, rule.target);
      LogicalReadsBack(json, rule.op, rule.rules, rule.target);
    }
  }

  lemma LogicalReadsBack(json: Json, op: LogicOp, rules: seq<IRouteRule>, target: RuleTarget)
    requires Member(json, TypeKey) == Some(JStr("logical"))
    requires Member(json, ModeKey) == Some(JStr(if op == And then "and" else "or"))
    requires Member(json, RulesKey).Some? && Member(json, RulesKey).value.JArr?
    requires AllFromSingbox(Member(json, RulesKey).value.items) == Some(rules)
    requires TargetFromSingbox(json) == Some(target)
    ensures FromSingbox(json) == Some(Logical(op, rules, target))
  {
    assert "and"[0] == 'a' && "or"[0] == 'o';
  }

  lemma {:induction false} AllWriteRead(rules: seq<IRouteRule>, geo: GeoNames)
    requires forall i | 0 <= i < |rules| :: Canonical(rules[i])
    ensures AllSingbox(rules, geo).Some? && AllFromSingbox(AllSingbox(rules, geo).value) == Some(rules)
    decreases rules
  {
    if rules != [] {
      var n := |rules| - 1;
      AllWriteRead(rules[..n], geo);
      WriteRead(rules[n], geo);
      var written := AllSingbox(rules, geo).value;
      assert written[..|written| - 1] == AllSingbox(rules[..n], geo).value;
      assert rules[..n] + [rules[n]] == rules;
    }
  }

  /** The member is an array that starts with this value. */
  predicate StartsWith(rule: Json, key: Key, first: Json) {
    && Member(rule, key).Some? && Member(rule, key).value.JArr?
    && Member(rule, key).value.items != [] && Member(rule, key).value.items[0] == first
  }

  /** Reading succeeds exactly if the first port, where there is one, is a 16-bit number. */
  lemma {:induction false} ReadSucceedsExactly(rule: Json, slot: nat)
    requires slot < SLOTS
    ensures FieldsFrom(rule, slot).Some?
      <==> forall first :: StartsWith(rule, PortKey, first) ==> first.JInt? && 0 <= first.i < 0x1_0000
    decreases SLOTS - slot
  {
    if slot < SLOTS - 1 {
      ReadSucceedsExactly(rule, slot + 1);
    } else if Member(rule, PortKey).Some? && Member(rule, PortKey).value.JArr? && Member(rule, PortKey).value.items != [] {
      assert StartsWith(rule, PortKey, Member(rule, PortKey).value.items[0]);
    }
  }

  /** Exactly the fields whose array starts with their value are read. */
  lemma {:induction false} FieldsReadExactly(rule: Json, slot: nat, field: MatchField)
    requires slot < SLOTS && FieldsFrom(rule, slot).Some?
    ensures field in FieldsFrom(rule, slot).value
      <==> slot <= Slot(field) < SLOTS && StartsWith(rule, SlotKey(Slot(field)), Payload(field))
    decreases SLOTS - slot
  {
    if slot < SLOTS - 1 {
      FieldsReadExactly(rule, slot + 1, field);
      if SlotValue(rule, slot).Some? && SlotValue(rule, slot).value.JStr? {
        var v := SlotValue(rule, slot).value.s;
        assert Slot(SlotField(slot, v)) == slot && Payload(SlotField(slot, v)) == JStr(v);
        if Slot(field) == slot {
          PayloadField(field);
        }
      }
    }
  }

  lemma CanonicalInFront(field: MatchField, rest: seq<MatchField>)
    requires CanonicalFields(rest) && Slot(field) < SLOTS - 1
    requires forall i | 0 <= i < |rest| :: Slot(field) < Slot(rest[i])
    ensures CanonicalFields([field] + rest)
    ensures forall i | 0 <= i < |rest| + 1 :: Slot(field) <= Slot(([field] + rest)[i])
  {
  }

  lemma {:induction false} FieldsReadAreCanonical(rule: Json, slot: nat)
    requires slot < SLOTS && FieldsFrom(rule, slot).Some?
    ensures var matches := FieldsFrom(rule, slot).value;
      CanonicalFields(matches) && forall i | 0 <= i < |matches| :: slot <= Slot(matches[i])
    decreases SLOTS - slot
  {
    if slot < SLOTS - 1 {
      FieldsReadAreCanonical(rule, slot + 1);
      if SlotValue(rule, slot).Some? && SlotValue(rule, slot).value.JStr? {
        var field := SlotField(slot, SlotValue(rule, slot).value.s);
        assert Slot(field) == slot;
        CanonicalInFront(field, FieldsFrom(rule, slot + 1).value);
      }
    }
  }

  /** The reader only ever produces canonical rules. */
  lemma {:induction false} ReadIsCanonical(json: Json)
    ensures FromSingbox(json).Some? ==> Canonical(FromSingbox(json).value)
    decreases json, 0
  {
    if FromSingbox(json).Some? {
      if Member(json, TypeKey) == Some(JStr("logical")) {
        AllReadAreCanonical(json.entries[RulesKey].items);
      } else {
        FieldsReadAreCanonical(json, 0);
      }
    }
  }

  lemma {:induction false} AllReadAreCanonical(items: seq<Json>)
    ensures AllFromSingbox(items).Some? ==> forall i | 0 <= i < |AllFromSingbox(items).value| :: Canonical(AllFromSingbox(items).value[i])
    decreases items
  {
    if items != [] {
      AllReadAreCanonical(items[..|items| - 1]);
      ReadIsCanonical(items[|items| - 1]);
    }
  }

  /** Every JSON rule tree the reader accepts is written again and reads back as the same rule. */
  lemma ReadWriteRead(json: Json, geo: GeoNames)
    requires FromSingbox(json).Some?
    ensures var rule := FromSingbox(json).value;
      Singbox(rule, geo).Some? && FromSingbox(Singbox(rule, geo).value) == Some(rule)
  {
    ReadIsCanonical(json);
    WriteRead(FromSingbox(json).value, geo);
  }

  /** A rule survives being written and read exactly when it is canonical. */
  lemma SurvivesExactly(rule: IRouteRule, geo: GeoNames)
    ensures Canonical(rule)
      <==> Singbox(rule, geo).Some? && FromSingbox(Singbox(rule, geo).value) == Some(rule)
  {
    if Canonical(rule) {
      WriteRead(rule, geo);
    } else if Singbox(rule, geo).Some? {
      ReadIsCanonical(Singbox(rule, geo).value);
    }
  }
}
