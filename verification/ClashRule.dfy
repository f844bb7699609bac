/** The clash rule string codec of `routing.rs`. */
module ClashRule {
  import opened Wrappers
  import opened Text
  import opened Yaml
  import opened RouteRule

  predicate IsModifier(part: string) {
    EqIgnoreCase(part, "no-resolve")
  }

  function TrimAll(parts: seq<string>): seq<string> {
    seq(|parts|, i requires 0 <= i < |parts| => Trim(parts[i]))
  }

  /** The parts that are not modifiers; the first is kept whatever it says. */
  function FieldsOf(parts: seq<string>): seq<string> {
    if |parts| <= 1 then parts
    else if IsModifier(parts[|parts| - 1]) then FieldsOf(parts[..|parts| - 1])
    else FieldsOf(parts[..|parts| - 1]) + [parts[|parts| - 1]]
  }

  function ModifiersOf(parts: seq<string>): seq<string> {
    if |parts| <= 1 then []
    else if IsModifier(parts[|parts| - 1]) then ModifiersOf(parts[..|parts| - 1]) + [parts[|parts| - 1]]
    else ModifiersOf(parts[..|parts| - 1])
  }

  lemma SplitStep(parts: seq<string>, i: nat)
    requires i < |parts|
    ensures FieldsOf(parts[..i + 1])
      == if i > 0 && IsModifier(parts[i]) then FieldsOf(parts[..i]) else FieldsOf(parts[..i]) + [parts[i]]
    ensures ModifiersOf(parts[..i + 1])
      == if i > 0 && IsModifier(parts[i]) then ModifiersOf(parts[..i]) + [parts[i]] else ModifiersOf(parts[..i])
  {
    assert parts[..i + 1][..i] == parts[..i];
  }

  /** `split_clash_rule`. */
  method SplitClashRule(rule: string) returns (fields: seq<string>, modifiers: seq<string>)
    ensures fields == FieldsOf(TrimAll(Split(rule, ',')))
    ensures modifiers == ModifiersOf(TrimAll(Split(rule, ',')))
  {
    var parts := TrimAll(Split(rule, ','));
    fields, modifiers := [], [];
    for index := 0 to |parts|
      invariant fields == FieldsOf(parts[..index]) && modifiers == ModifiersOf(parts[..index])
    {
      SplitStep(parts, index);
      if IsModifier(parts[index]) && index > 0 {
        modifiers := modifiers + [parts[index]];
      } else {
        fields := fields + [parts[index]];
      }
    }
    assert parts[..|parts|] == parts;
  }

  function TargetFromClash(s: string): RuleTarget {
    if s == "DIRECT" then Direct else if s == "REJECT" then Block else Outbound(s)
  }

  function TargetToClash(target: RuleTarget): string {
    match target
    case Outbound(name) => name
    case Direct => "DIRECT"
    case Block => "REJECT"
  }

  function GeoField(kind: GeoKind, value: string, geo: GeoNames): Option<MatchField> {
    if geo(kind, value).Unmappable? then None else Some(GeoSet(kind, value))
  }

  datatype RuleKind = DomainKind | SuffixKind | KeywordKind | CidrKind | PortKind | ProcessKind | RuleSetKind | GeoIpKind | GeoSiteKind
    | OtherKind

  function KindOf(header: string): RuleKind {
    match header
    case "DOMAIN" => DomainKind
    case "DOMAIN-SUFFIX" => SuffixKind
    case "DOMAIN-KEYWORD" => KeywordKind
    case "IP-CIDR" => CidrKind
    case "IP-CIDR6" => CidrKind
    case "DST-PORT" => PortKind
    case "PROCESS-NAME" => ProcessKind
    case "RULE-SET" => RuleSetKind
    case "GEOIP" => GeoIpKind
    case "GEOSITE" => GeoSiteKind
    case _ => OtherKind
  }

  function FieldOfKind(kind: RuleKind, value: string, geo: GeoNames): Option<MatchField> {
    match kind
    case DomainKind => Some(Domain(value))
    case SuffixKind => Some(DomainSuffix(value))
    case KeywordKind => Some(DomainKeyword(value))
    case CidrKind => Some(IpCidr(value))
    case PortKind =>
      (match ParseUnsigned(value, PORT_BOUND)
       case Some(port) => Some(Port(port))
       case None => None)
    case ProcessKind => Some(Process(value))
    case RuleSetKind => Some(RuleSet(value))
    case GeoIpKind => GeoField(Ip, value, geo)
    case GeoSiteKind => GeoField(Site, value, geo)
    case OtherKind => None
  }

  /** `field_from_clash_str`. */
  function FieldFromClash(header: string, value: string, geo: GeoNames): Option<MatchField> {
    FieldOfKind(KindOf(header), value, geo)
  }

  /** `SUB-RULE` and the logical headers pass through verbatim. */
  predicate PassesThrough(header: string) {
    header == "SUB-RULE" || header == "AND" || header == "OR" || header == "NOT"
  }

  function FieldHeader(field: MatchField): string {
    match field
    case Domain(_) => "DOMAIN"
    case DomainSuffix(_) => "DOMAIN-SUFFIX"
    case DomainKeyword(_) => "DOMAIN-KEYWORD"
    case IpCidr(_) => "IP-CIDR"
    case Port(_) => "DST-PORT"
    case Process(_) => "PROCESS-NAME"
    case RuleSet(_) => "RULE-SET"
    case GeoSet(kind, _) => if kind == Ip then "GEOIP" else "GEOSITE"
  }

  function FieldPayload(field: MatchField): string {
    if field.Port? then Decimal(field.port) else field.v
  }

  /** `field_to_clash_str`. */
  function FieldToClash(field: MatchField): string {
    FieldHeader(field) + [','] + FieldPayload(field)
  }

  /** The rule that trimmed, modifier-free fields stand for; `rule` is kept when they fit no field. */
  function FromFields(parts: seq<string>, rule: string, geo: GeoNames): IRouteRule {
    if |parts| < 2 || PassesThrough(parts[0]) || |parts| != 3 then Raw(rule)
    else match FieldFromClash(parts[0], parts[1], geo)
      case None => Raw(rule)
      case Some(field) => Simple([field], TargetFromClash(parts[2]))
  }

  /** `from_clash_rule_str`. */
  function FromClash(rule: string, geo: GeoNames): (r: IRouteRule)
    ensures r.Raw? ==> ToClash(r) == rule
    ensures r.Simple? ==> |r.matches| == 1 && (r.matches[0].GeoSet? ==> geo(r.matches[0].kind, r.matches[0].v) != Unmappable)
    ensures !r.Logical?
  {
    FromFields(FieldsOf(TrimAll(Split(rule, ','))), rule, geo)
  }

  function FieldParts(matches: seq<MatchField>): seq<string> {
    if matches == [] then [] else Split(FieldToClash(matches[0]), ',') + FieldParts(matches[1..])
  }

  /** `to_clash_rule_str`. */
  function ToClash(rule: IRouteRule): string {
    match rule
    case Raw(clashRaw) => clashRaw
    case Simple(matches, target) => Join(FieldParts(matches) + [TargetToClash(target)], ',')
    case Logical(_, _, _) => ""
  }

  // ---------- parse, print, parse ----------

  /** A part as the splitter leaves it: trimmed and free of commas. */
  predicate CleanPart(s: string) {
    Trimmed(s) && ',' !in s
  }

  lemma PartsAreClean(rule: string)
    ensures forall p | p in TrimAll(Split(rule, ',')) :: CleanPart(p)
  {
    var parts := Split(rule, ',');
    SplitParts(rule, ',');
    forall i | 0 <= i < |parts|
      ensures CleanPart(TrimAll(parts)[i])
    {
      TrimFacts(parts[i]);
      assert parts[i] in parts;
    }
  }

  lemma {:induction false} FieldsComeFromParts(parts: seq<string>)
    ensures forall f | f in FieldsOf(parts) :: f in parts
    ensures forall i | 1 <= i < |FieldsOf(parts)| :: !IsModifier(FieldsOf(parts)[i])
    ensures parts != [] ==> FieldsOf(parts) != [] && FieldsOf(parts)[0] == parts[0]
  {
    if |parts| > 1 {
      FieldsComeFromParts(parts[..|parts| - 1]);
    }
  }

  /** Splitting three clean, modifier-free parts gives them back. */
  lemma ThreePartsSplit(kind: string, value: string, target: string)
    requires CleanPart(kind) && CleanPart(value) && CleanPart(target)
    requires !IsModifier(value) && !IsModifier(target)
    ensures FieldsOf(TrimAll(Split(Join([kind, value, target], ','), ','))) == [kind, value, target]
  {
    var parts := [kind, value, target];
    SplitJoin(parts, ',');
    TrimmedStays(kind);
    TrimmedStays(value);
    TrimmedStays(target);
    assert TrimAll(parts) == parts;
    assert parts[..2] == [kind, value] && parts[..2][..1] == [kind];
    assert FieldsOf([kind, value]) == [kind, value];
  }

  function KindOfField(field: MatchField): RuleKind {
    match field
    case Domain(_) => DomainKind
    case DomainSuffix(_) => SuffixKind
    case DomainKeyword(_) => KeywordKind
    case IpCidr(_) => CidrKind
    case Port(_) => PortKind
    case Process(_) => ProcessKind
    case RuleSet(_) => RuleSetKind
    case GeoSet(kind, _) => if kind == Ip then GeoIpKind else GeoSiteKind
  }

  lemma HeaderReadsBack(field: MatchField)
    ensures CleanPart(FieldHeader(field)) && !PassesThrough(FieldHeader(field))
    ensures KindOf(FieldHeader(field)) == KindOfField(field)
  {
    match field
    case Domain(_) =>
    case DomainSuffix(_) =>
    case DomainKeyword(_) =>
    case IpCidr(_) =>
    case Port(_) =>
    case Process(_) =>
    case RuleSet(_) =>
    case GeoSet(kind, _) =>
  }

  lemma DecimalIsNoModifier(n: nat)
    ensures !IsModifier(Decimal(n))
  {
    var digits := Decimal(n);
    assert IsDigit(digits[0]) && Lower(digits)[0] == digits[0];
    assert Lower("no-resolve")[0] == 'n';
  }

  /** A parsed field prints a clean payload that reads back as the same field. */
  lemma PayloadReadsBack(kind: RuleKind, value: string, geo: GeoNames)
    requires CleanPart(value) && !IsModifier(value)
    requires FieldOfKind(kind, value, geo).Some?
    ensures var field := FieldOfKind(kind, value, geo).value;
      && CleanPart(FieldPayload(field)) && !IsModifier(FieldPayload(field))
      && FieldOfKind(KindOfField(field), FieldPayload(field), geo) == Some(field)
  {
    var field := FieldOfKind(kind, value, geo).value;
    if kind == PortKind {
      ParseDecimal(field.port, PORT_BOUND);
      DecimalIsNoModifier(field.port);
    } else {
      assert FieldPayload(field) == value && KindOfField(field) == kind;
    }
  }

  lemma TargetReadsBack(target: string)
    ensures TargetToClash(TargetFromClash(target)) == target
  {
  }

  lemma OneFieldParts(field: MatchField)
    requires ',' !in FieldHeader(field) && ',' !in FieldPayload(field)
    ensures FieldParts([field]) == [FieldHeader(field), FieldPayload(field)]
  {
    SplitHead(FieldHeader(field), FieldPayload(field), ',');
    SplitHead(FieldPayload(field), "", ',');
    assert [field][1..] == [];
  }

  /** A rule with one field prints as its three parts. */
  lemma OneFieldPrints(field: MatchField, target: string)
    requires ',' !in FieldHeader(field) && ',' !in FieldPayload(field)
    ensures ToClash(Simple([field], TargetFromClash(target))) == Join([FieldHeader(field), FieldPayload(field), target], ',')
  {
    OneFieldParts(field);
    TargetReadsBack(target);
    assert [FieldHeader(field), FieldPayload(field)] + [target] == [FieldHeader(field), FieldPayload(field), target];
  }

  /** Parts that split off cleanly parse to the field they name. */
  lemma PartsParse(rule: string, header: string, value: string, target: string, geo: GeoNames)
    requires FieldsOf(TrimAll(Split(rule, ','))) == [header, value, target]
    requires !PassesThrough(header) && FieldOfKind(KindOf(header), value, geo).Some?
    ensures FromClash(rule, geo) == Simple([FieldOfKind(KindOf(header), value, geo).value], TargetFromClash(target))
  {
  }

  lemma HeaderKinds()
    ensures KindOf("DOMAIN") == DomainKind && KindOf("DOMAIN-SUFFIX") == SuffixKind && KindOf("DOMAIN-KEYWORD") == KeywordKind
    ensures KindOf("IP-CIDR") == KindOf("IP-CIDR6") == CidrKind && KindOf("DST-PORT") == PortKind
    ensures KindOf("PROCESS-NAME") == ProcessKind && KindOf("RULE-SET") == RuleSetKind
    ensures KindOf("GEOIP") == GeoIpKind && KindOf("GEOSITE") == GeoSiteKind
  {
  }

  lemma HeaderPassesNot(header: string)
    requires PassesThrough(header)
    ensures KindOf(header) == OtherKind
  {
  }

  /** The field each header stands for. */
  ghost predicate StandsFor(header: string, value: string, geo: GeoNames, field: MatchField) {
    || (header == "DOMAIN" && field == Domain(value))
    || (header == "DOMAIN-SUFFIX" && field == DomainSuffix(value))
    || (header == "DOMAIN-KEYWORD" && field == DomainKeyword(value))
    || ((header == "IP-CIDR" || header == "IP-CIDR6") && field == IpCidr(value))
    || (header == "DST-PORT" && exists port :: ParseUnsigned(value, 0x1_0000) == Some(port) && field == Port(port))
    || (header == "PROCESS-NAME" && field == Process(value))
    || (header == "RULE-SET" && field == RuleSet(value))
    || (header == "GEOIP" && geo(Ip, value) != Unmappable && field == GeoSet(Ip, value))
    || (header == "GEOSITE" && geo(Site, value) != Unmappable && field == GeoSet(Site, value))
  }

  lemma StandsForExactly(header: string, value: string, geo: GeoNames, field: MatchField)
    ensures StandsFor(header, value, geo, field) <==> FieldOfKind(KindOf(header), value, geo) == Some(field)
  {
    HeaderKinds();
    match KindOf(header)
    case DomainKind => assert header == "DOMAIN";
    case SuffixKind => assert header == "DOMAIN-SUFFIX";
    case KeywordKind => assert header == "DOMAIN-KEYWORD";
    case CidrKind => assert header == "IP-CIDR" || header == "IP-CIDR6";
    case PortKind => assert header == "DST-PORT";
    case ProcessKind => assert header == "PROCESS-NAME";
    case RuleSetKind => assert header == "RULE-SET";
    case GeoIpKind => assert header == "GEOIP";
    case GeoSiteKind => assert header == "GEOSITE";
    case OtherKind =>
  }

  /** Three clean parts parse to exactly the field their header stands for, at their target, and
      to the text itself when it stands for none. */
  lemma HeadersStandFor(header: string, value: string, target: string, geo: GeoNames, field: MatchField)
    requires CleanPart(header) && CleanPart(value) && CleanPart(target) && !IsModifier(value) && !IsModifier(target)
    ensures var rule := Join([header, value, target], ',');
      && (StandsFor(header, value, geo, field) <==> FromClash(rule, geo).Simple? && FromClash(rule, geo).matches == [field])
      && (FromClash(rule, geo) == Raw(rule)
          || (FromClash(rule, geo).Simple? && FromClash(rule, geo).target
                == if target == "DIRECT" then Direct else if target == "REJECT" then Block else Outbound(target)))
  {
    ThreePartsSplit(header, value, target);
    StandsForExactly(header, value, geo, field);
    if PassesThrough(header) {
      HeaderPassesNot(header);
    }
  }

  /** The splitter sorts every part into one of the two lists. */
  lemma {:induction false} SplitKeepsAll(parts: seq<string>)
    ensures multiset(FieldsOf(parts)) + multiset(ModifiersOf(parts)) == multiset(parts)
    ensures forall i | 0 <= i < |ModifiersOf(parts)| :: IsModifier(ModifiersOf(parts)[i])
  {
    if |parts| > 1 {
      var front, last := parts[..|parts| - 1], parts[|parts| - 1];
      SplitKeepsAll(front);
      assert parts == front + [last];
    }
  }

  /** A printed one-field rule parses to that field and target. */
  lemma PrintedParses(field: MatchField, target: string, geo: GeoNames)
    requires CleanPart(FieldPayload(field)) && !IsModifier(FieldPayload(field))
    requires CleanPart(target) && !IsModifier(target)
    requires FieldOfKind(KindOfField(field), FieldPayload(field), geo) == Some(field)
    ensures FromClash(ToClash(Simple([field], TargetFromClash(target))), geo) == Simple([field], TargetFromClash(target))
  {
    HeaderReadsBack(field);
    OneFieldPrints(field, target);
    ThreePartsSplit(FieldHeader(field), FieldPayload(field), target);
    PartsParse(Join([FieldHeader(field), FieldPayload(field), target], ','), FieldHeader(field), FieldPayload(field), target, geo);
  }

  /** Printing a parsed rule and parsing it again gives the same rule, for every string. */
  lemma ParsePrintParse(rule: string, geo: GeoNames)
    ensures FromClash(ToClash(FromClash(rule, geo)), geo) == FromClash(rule, geo)
  {
    var fields := FieldsOf(TrimAll(Split(rule, ',')));
    var parsed := FromClash(rule, geo);
    if parsed.Simple? {
      PartsAreClean(rule);
      FieldsComeFromParts(TrimAll(Split(rule, ',')));
      assert fields[1] in fields && fields[2] in fields;
      PayloadReadsBack(KindOf(fields[0]), fields[1], geo);
      PrintedParses(parsed.matches[0], fields[2], geo);
    }
  }

  /** `no-resolve` is dropped on either side of the target, and the IPv6 kind becomes the plain one. */
  lemma ModifierDropped(value: string, target: string, geo: GeoNames)
    requires CleanPart(value) && CleanPart(target) && !IsModifier(value) && !IsModifier(target)
    ensures FromClash(Join(["IP-CIDR6", value, target, "no-resolve"], ','), geo) == Simple([IpCidr(value)], TargetFromClash(target))
    ensures FromClash(Join(["IP-CIDR", value, "no-resolve", target], ','), geo) == Simple([IpCidr(value)], TargetFromClash(target))
  {
    CidrReads();
    PlainModifier();
    ModifierSplit("IP-CIDR6", value, target, "no-resolve");
    ModifierSplit("IP-CIDR", value, target, "no-resolve");
    PartsParse(Join(["IP-CIDR6", value, target, "no-resolve"], ','), "IP-CIDR6", value, target, geo);
    PartsParse(Join(["IP-CIDR", value, "no-resolve", target], ','), "IP-CIDR", value, target, geo);
  }

  lemma PlainModifier()
    ensures CleanPart("no-resolve") && IsModifier("no-resolve")
  {
  }

  lemma CidrReads()
    ensures CleanPart("IP-CIDR") && !PassesThrough("IP-CIDR") && KindOf("IP-CIDR") == CidrKind
    ensures CleanPart("IP-CIDR6") && !PassesThrough("IP-CIDR6") && KindOf("IP-CIDR6") == CidrKind
  {
  }

  /** Clean parts come back from a joined text. */
  lemma CleanPartsSplit(parts: seq<string>)
    requires parts != [] && forall i | 0 <= i < |parts| :: CleanPart(parts[i])
    ensures TrimAll(Split(Join(parts, ','), ',')) == parts
  {
    SplitJoin(parts, ',');
    forall i | 0 <= i < |parts|
      ensures Trim(parts[i]) == parts[i]
    {
      TrimmedStays(parts[i]);
    }
  }

  lemma ModifierFields(kind: string, value: string, target: string, modifier: string)
    requires !IsModifier(value) && !IsModifier(target) && IsModifier(modifier)
    ensures FieldsOf([kind, value, target, modifier]) == FieldsOf([kind, value, modifier, target]) == [kind, value, target]
  {
    assert FieldsOf([kind]) == [kind];
    FieldsStep([kind], value);
    assert [kind] + [value] == [kind, value];
    FieldsStep([kind, value], target);
    FieldsStep([kind, value], modifier);
    assert [kind, value] + [target] == [kind, value, target];
    assert [kind, value] + [modifier] == [kind, value, modifier];
    FieldsStep([kind, value, target], modifier);
    FieldsStep([kind, value, modifier], target);
    assert [kind, value, target] + [modifier] == [kind, value, target, modifier];
    assert [kind, value, modifier] + [target] == [kind, value, modifier, target];
  }

  lemma ModifierSplit(kind: string, value: string, target: string, modifier: string)
    requires CleanPart(kind) && CleanPart(value) && CleanPart(target) && !IsModifier(value) && !IsModifier(target)
    requires CleanPart(modifier) && IsModifier(modifier)
    ensures FieldsOf(TrimAll(Split(Join([kind, value, target, modifier], ','), ','))) == [kind, value, target]
    ensures FieldsOf(TrimAll(Split(Join([kind, value, modifier, target], ','), ','))) == [kind, value, target]
  {
    CleanPartsSplit([kind, value, target, modifier]);
    CleanPartsSplit([kind, value, modifier, target]);
    ModifierFields(kind, value, target, modifier);
  }

  lemma FieldsStep(parts: seq<string>, part: string)
    requires parts != []
    ensures FieldsOf(parts + [part]) == if IsModifier(part) then FieldsOf(parts) else FieldsOf(parts) + [part]
  {
    assert (parts + [part])[..|parts|] == parts;
  }

  // ---------- the rules list of a profile ----------

  function Loaded(item: Value, geo: GeoNames): seq<IRouteRule> {
    if item.Str? then [FromClash(item.s, geo)] else []
  }

  function LoadedStrings(items: seq<Value>, geo: GeoNames): seq<IRouteRule> {
    if items == [] then [] else Loaded(items[0], geo) + LoadedStrings(items[1..], geo)
  }

  /** `load_rules_from_doc` on the parsed document. */
  function LoadRules(doc: Value, geo: GeoNames): seq<IRouteRule> {
    if doc.Map? then LoadedStrings(GetSeqOrEmpty(doc.entries, "rules"), geo) else []
  }

  function RuleValues(rules: seq<IRouteRule>): seq<Value> {
    seq(|rules|, i requires 0 <= i < |rules| => Str(ToClash(rules[i])))
  }

  /** `save_profile_rules` between parsing and printing the document. */
  function SaveRules(doc: Value, rules: seq<IRouteRule>): Result<Value> {
    if exists i | 0 <= i < |rules| :: rules[i].Logical? then Err("logical rules cannot be saved to a clash profile")
    else if doc.Map? then Ok(Map(doc.entries[Str("rules") := Sequence(RuleValues(rules))]))
    else Ok(doc)
  }

  /** A rule that can be saved and reads back as itself. */
  predicate ReadsBack(rule: IRouteRule, geo: GeoNames) {
    !rule.Logical? && FromClash(ToClash(rule), geo) == rule
  }

  lemma {:induction false} LoadedReadBack(items: seq<Value>, geo: GeoNames)
    ensures forall r | r in LoadedStrings(items, geo) :: ReadsBack(r, geo)
  {
    if items != [] {
      if items[0].Str? {
        ParsePrintParse(items[0].s, geo);
      }
      LoadedReadBack(items[1..], geo);
    }
  }

  lemma {:induction false} ReloadPrinted(rules: seq<IRouteRule>, geo: GeoNames)
    requires forall r | r in rules :: ReadsBack(r, geo)
    ensures LoadedStrings(RuleValues(rules), geo) == rules
  {
    if rules != [] {
      assert ReadsBack(rules[0], geo);
      assert RuleValues(rules)[1..] == RuleValues(rules[1..]);
      ReloadPrinted(rules[1..], geo);
    }
  }

  /** Every string of the rules list is loaded, in its place, and nothing else is. */
  lemma {:induction false} LoadedInOrder(front: seq<Value>, rest: seq<Value>, rule: string, other: Value, geo: GeoNames)
    ensures LoadedStrings(front + rest, geo) == LoadedStrings(front, geo) + LoadedStrings(rest, geo)
    ensures LoadedStrings([Str(rule)], geo) == [FromClash(rule, geo)]
    ensures !other.Str? ==> LoadedStrings([other], geo) == []
  {
    assert [Str(rule)][1..] == [] && [other][1..] == [];
    if front == [] {
      assert front + rest == rest;
    } else {
      LoadedInOrder(front[1..], rest, rule, other, geo);
      LoadedStep(front, geo);
      LoadedStep(front + rest, geo);
      assert (front + rest)[0] == front[0] && (front + rest)[1..] == front[1..] + rest;
    }
  }

  lemma LoadedStep(items: seq<Value>, geo: GeoNames)
    requires items != []
    ensures LoadedStrings(items, geo) == Loaded(items[0], geo) + LoadedStrings(items[1..], geo)
  {
  }

  /** Loading reads the `rules` sequence of a mapping, and saving writes one text per rule there,
      unless a rule is logical. */
  lemma LoadsAndSaves(entries: Mapping, items: seq<Value>, rules: seq<IRouteRule>, geo: GeoNames)
    requires Lookup(entries, Str("rules")) == Some(Sequence(items))
    ensures LoadRules(Map(entries), geo) == LoadedStrings(items, geo)
    ensures SaveRules(Map(entries), rules).Err? <==> exists i :: 0 <= i < |rules| && rules[i].Logical?
    ensures SaveRules(Map(entries), rules).Ok? ==>
      && SaveRules(Map(entries), rules).value.Map?
      && var saved := GetSeqOrEmpty(SaveRules(Map(entries), rules).value.entries, "rules");
         |saved| == |rules| && forall i | 0 <= i < |rules| :: saved[i] == Str(ToClash(rules[i]))
  {
  }

  /** Saving the rules just loaded succeeds, reloads to the same rules and touches no other key. */
  lemma LoadSaveReload(doc: Value, geo: GeoNames)
    ensures var rules := LoadRules(doc, geo);
      && SaveRules(doc, rules).Ok?
      && var saved := SaveRules(doc, rules).value;
      && LoadRules(saved, geo) == rules
      && (doc.Map? ==> saved.Map? && forall k: Value | k != Str("rules") ::
            (k in saved.entries <==> k in doc.entries) && (k in doc.entries ==> saved.entries[k] == doc.entries[k]))
      && (!doc.Map? ==> saved == doc)
  {
    var rules := LoadRules(doc, geo);
    if doc.Map? {
      LoadedReadBack(GetSeqOrEmpty(doc.entries, "rules"), geo);
      ReloadPrinted(rules, geo);
    }
    assert forall i | 0 <= i < |rules| :: ReadsBack(rules[i], geo);
  }
}
