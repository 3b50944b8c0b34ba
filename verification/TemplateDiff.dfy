/** The structural diff between a pinned template and the target template. */
module TemplateDiff {
  import opened Wrappers
  import opened StableSerialize
  import StringOrder
  import Text_ = Text

  datatype Classification =
    | Identical
    | CapabilityAdded | CapabilityRemoved
    | CommandAdded | CommandRemoved
    | ResourceAdded | ResourceRemoved | ResourceChanged
    | WritePolicyChanged
    | TemplateKeyChanged
    | UnknownChange

  datatype Diff = Diff(
    classifications: seq<Classification>,
    capabilitiesAdded: seq<string>, capabilitiesRemoved: seq<string>,
    commandsAdded: seq<string>, commandsRemoved: seq<string>,
    resourcesAdded: seq<string>, resourcesRemoved: seq<string>, resourcesChanged: seq<string>,
    previousAvailable: bool)

  /** Adding to a JavaScript set keeps insertion order. */
  function Add(cs: seq<Classification>, c: Classification): seq<Classification> {
    if c in cs then cs else cs + [c]
  }

  function AddIf(cs: seq<Classification>, test: bool, c: Classification): (r: seq<Classification>)
    ensures forall x :: x in r <==> x in cs || (test && x == c)
    ensures r == [] <==> cs == [] && !test
  {
    if test then Add(cs, c) else cs
  }

  // ---------- bounded, sanitised lists ----------

  const MAX_SURFACE_VALUE_LENGTH := 240
  const MAX_LIST_ENTRIES := 32
  const ELLIPSIS := "\U{2026}"

  predicate IsControl(c: char) {
    c as int < 0x20 || 0x7f <= c as int <= 0x9f
  }

  function StripControls(s: string): (r: string)
    ensures |r| == |s| && forall i :: 0 <= i < |s| ==> r[i] == if IsControl(s[i]) then ' ' else s[i]
  {
    seq(|s|, i requires 0 <= i < |s| => if IsControl(s[i]) then ' ' else s[i])
  }

  function SanitizeSurfaceValue(s: string): string {
    var clean := StripControls(s);
    if |clean| > MAX_SURFACE_VALUE_LENGTH then clean[..MAX_SURFACE_VALUE_LENGTH] + ELLIPSIS else clean
  }

  function SanitizeAll(values: seq<string>): (r: seq<string>)
    ensures |r| == |values|
  {
    seq(|values|, i requires 0 <= i < |values| => SanitizeSurfaceValue(values[i]))
  }

  function BoundList(values: seq<string>): seq<string> {
    var clean := SanitizeAll(values);
    if |clean| <= MAX_LIST_ENTRIES then clean
    else clean[..MAX_LIST_ENTRIES] + [ELLIPSIS + " " + Text_.Decimal(|clean| - MAX_LIST_ENTRIES) + " more entries omitted"]
  }

  predicate NoControls(s: string) {
    forall i :: 0 <= i < |s| ==> !IsControl(s[i])
  }

  /** Nothing listed can carry a control character, the list and its values are bounded, and a list is
      empty only when there was nothing to list. */
  lemma BoundListIsSafe(values: seq<string>)
    ensures |BoundList(values)| <= MAX_LIST_ENTRIES + 1
    ensures BoundList(values) == [] <==> values == []
    ensures forall s :: s in BoundList(values) ==> NoControls(s)
    ensures forall s :: s in SanitizeAll(values) ==> |s| <= MAX_SURFACE_VALUE_LENGTH + 1
  {
    hide NoControls, SanitizeSurfaceValue, IsControl;
    forall s | s in SanitizeAll(values) ensures NoControls(s) && |s| <= MAX_SURFACE_VALUE_LENGTH + 1 {
      var i :| 0 <= i < |values| && SanitizeAll(values)[i] == s;
      SanitizedIsSafe(values[i]);
    }
    if |values| > MAX_LIST_ENTRIES {
      OmissionIsSafe(|values| - MAX_LIST_ENTRIES);
    }
  }

  lemma SanitizedIsSafe(s: string)
    ensures NoControls(SanitizeSurfaceValue(s)) && |SanitizeSurfaceValue(s)| <= MAX_SURFACE_VALUE_LENGTH + 1
  {
  }

  lemma OmissionIsSafe(n: nat)
    ensures NoControls(ELLIPSIS + " " + Text_.Decimal(n) + " more entries omitted")
  {
    Text_.ParseOfNumeral(n, Text_.Ten);
    DigitsAreNoControls(Text_.Decimal(n));
    assert NoControls(ELLIPSIS) && NoControls(" ") && NoControls(" more entries omitted");
  }

  lemma DigitsAreNoControls(s: string)
    requires Text_.IsNumeral(s, Text_.Ten)
    ensures NoControls(s)
  {
  }

  // ---------- surfaces ----------

  function Added(previous: seq<string>, next: seq<string>): (r: seq<string>)
    ensures forall x :: x in r <==> x in next && x !in previous
  {
    if next == [] then []
    else (if next[0] in previous then [] else [next[0]]) + Added(previous, next[1..])
  }

  function Strings(v: Value): (r: seq<string>)
    requires v.Array? && forall i :: 0 <= i < |v.items| ==> v.items[i].String?
    ensures |r| == |v.items|
  {
    seq(|v.items|, i requires 0 <= i < |v.items| => v.items[i].s)
  }

  ghost predicate IsStringArray(v: Value) {
    v.Array? && forall i :: 0 <= i < |v.items| ==> v.items[i].String?
  }

  ghost predicate IsOperation(v: Value) {
    v.Object? && Lookup(v, "name").String? && Lookup(v, "effect").String?
  }

  ghost predicate IsTypedTool(v: Value) {
    && v.Object? && Lookup(v, "name").String? && Lookup(v, "operations").Array?
    && forall i :: 0 <= i < |Lookup(v, "operations").items| ==> IsOperation(Lookup(v, "operations").items[i])
  }

  /** The shape the manifest schema guarantees for a tool template. */
  ghost predicate IsToolTemplate(v: Value) {
    && WellFormed(v) && IsJson(v) && v.Object?
    && IsStringArray(Lookup(v, "capabilities")) && IsStringArray(Lookup(v, "allowedCommands"))
    && (Lookup(v, "openclawTypedTool") != Undefined ==> IsTypedTool(Lookup(v, "openclawTypedTool")))
  }

  function OperationLine(tool: string, operation: Value): string
    requires Lookup(operation, "name").String? && Lookup(operation, "effect").String?
  {
    tool + ":" + Lookup(operation, "name").s + " (" + Lookup(operation, "effect").s + ")"
  }

  function CommandSurface(template: Value): seq<string>
    requires IsToolTemplate(template)
  {
    var tool := Lookup(template, "openclawTypedTool");
    Strings(Lookup(template, "allowedCommands"))
    + if tool == Undefined then []
      else
        var operations := Lookup(tool, "operations").items;
        seq(|operations|, i requires 0 <= i < |operations| => OperationLine(Lookup(tool, "name").s, operations[i]))
  }

  function Without(fields: seq<Field>, dropped: seq<string>): (r: seq<Field>)
    ensures forall f :: f in r <==> f in fields && f.key !in dropped
  {
    if fields == [] then []
    else (if fields[0].key in dropped then [] else [fields[0]]) + Without(fields[1..], dropped)
  }

  /** The template without its two list surfaces. */
  function Strip(template: Value): Value
    requires template.Object?
  {
    Object(Without(template.fields, ["capabilities", "allowedCommands"]))
  }

  lemma EqualStrings(v: Value, w: Value)
    requires IsStringArray(v) && IsStringArray(w) && Equal(v, w)
    ensures Strings(v) == Strings(w)
  {
    forall i | 0 <= i < |v.items| ensures Strings(v)[i] == Strings(w)[i] {
      assert Equal(v.items[i], w.items[i]);
    }
  }

  /** Equal templates offer the same capabilities and the same commands. */
  lemma EqualSurfaces(v: Value, w: Value)
    requires IsToolTemplate(v) && IsToolTemplate(w) && Equal(v, w)
    ensures Strings(Lookup(v, "capabilities")) == Strings(Lookup(w, "capabilities"))
    ensures CommandSurface(v) == CommandSurface(w)
  {
    hide Equal, Lookup;
    EqualLookup(v, w, "capabilities");
    EqualLookup(v, w, "allowedCommands");
    EqualLookup(v, w, "openclawTypedTool");
    EqualStrings(Lookup(v, "capabilities"), Lookup(w, "capabilities"));
    EqualStrings(Lookup(v, "allowedCommands"), Lookup(w, "allowedCommands"));
    var s, t := Lookup(v, "openclawTypedTool"), Lookup(w, "openclawTypedTool");
    if s != Undefined {
      EqualLookup(s, t, "name");
      EqualLookup(s, t, "operations");
      var a, b := Lookup(s, "operations").items, Lookup(t, "operations").items;
      forall i | 0 <= i < |a|
        ensures OperationLine(Lookup(s, "name").s, a[i]) == OperationLine(Lookup(t, "name").s, b[i])
      {
        EqualLookup(a[i], b[i], "name");
        EqualLookup(a[i], b[i], "effect");
      }
    }
  }

  lemma KeysOfFields(fields: seq<Field>, k: string)
    ensures k in Keys(fields) <==> exists f :: f in fields && f.key == k
  {
    if k in Keys(fields) {
      var i :| 0 <= i < |fields| && Keys(fields)[i] == k;
      assert fields[i] in fields;
    }
    if f :| f in fields && f.key == k {
      var i :| 0 <= i < |fields| && fields[i] == f;
      assert Keys(fields)[i] == k;
    }
  }

  lemma WithoutKeys(fields: seq<Field>, dropped: seq<string>)
    ensures forall k :: k in Keys(Without(fields, dropped)) <==> k in Keys(fields) && k !in dropped
  {
    forall k ensures k in Keys(Without(fields, dropped)) <==> k in Keys(fields) && k !in dropped {
      KeysOfFields(fields, k);
      KeysOfFields(Without(fields, dropped), k);
    }
  }

  lemma {:induction false} WithoutDistinct(fields: seq<Field>, dropped: seq<string>)
    requires StringOrder.Distinct(Keys(fields))
    ensures StringOrder.Distinct(Keys(Without(fields, dropped)))
  {
    hide StringOrder.Distinct;
    if fields != [] {
      FirstKeyDistinct(fields);
      WithoutDistinct(fields[1..], dropped);
      WithoutKeys(fields[1..], dropped);
      var rest := Without(fields[1..], dropped);
      if fields[0].key !in dropped {
        assert Without(fields, dropped) == [fields[0]] + rest;
        PrependKey(fields[0], rest);
      } else {
        assert Without(fields, dropped) == [] + rest == rest;
      }
    }
  }

  lemma FirstKeyDistinct(fields: seq<Field>)
    requires fields != [] && StringOrder.Distinct(Keys(fields))
    ensures StringOrder.Distinct(Keys(fields[1..])) && fields[0].key !in Keys(fields[1..])
  {
    assert forall i :: 0 <= i < |Keys(fields[1..])| ==> Keys(fields[1..])[i] == Keys(fields)[i + 1];
    assert Keys(fields)[0] == fields[0].key;
  }

  lemma PrependKey(f: Field, fields: seq<Field>)
    requires StringOrder.Distinct(Keys(fields)) && f.key !in Keys(fields)
    ensures StringOrder.Distinct(Keys([f] + fields))
  {
    assert Keys([f] + fields) == [f.key] + Keys(fields);
  }

  /** With distinct keys a lookup finds the one field of that key. */
  lemma {:induction false} GetUnique(fields: seq<Field>, f: Field)
    requires StringOrder.Distinct(Keys(fields)) && f in fields
    ensures f.key in Keys(fields) && Get(fields, f.key) == f.value
  {
    var i :| 0 <= i < |fields| && fields[i] == f;
    assert Keys(fields)[i] == f.key;
    var g := Get(fields, f.key);
    var j :| 0 <= j < |fields| && fields[j] == Field(f.key, g);
    assert Keys(fields)[j] == f.key;
  }

  lemma WithoutGet(fields: seq<Field>, dropped: seq<string>, k: string)
    requires StringOrder.Distinct(Keys(fields)) && k in Keys(fields) && k !in dropped
    ensures k in Keys(Without(fields, dropped)) && Get(Without(fields, dropped), k) == Get(fields, k)
  {
    WithoutKeys(fields, dropped);
    WithoutDistinct(fields, dropped);
    var i :| 0 <= i < |fields| && fields[i] == Field(k, Get(fields, k));
    assert fields[i] in fields;
    GetUnique(Without(fields, dropped), fields[i]);
  }

  lemma StripIsJson(v: Value)
    requires v.Object? && WellFormed(v) && IsJson(v)
    ensures WellFormed(Strip(v)) && IsJson(Strip(v))
  {
    WithoutDistinct(v.fields, ["capabilities", "allowedCommands"]);
    var r := Strip(v).fields;
    forall i | 0 <= i < |r| ensures WellFormed(r[i].value) && IsJson(r[i].value) {
      assert r[i] in r;
    }
  }

  lemma EqualStrip(v: Value, w: Value)
    requires v.Object? && w.Object? && WellFormed(v) && WellFormed(w) && Equal(v, w)
    ensures Equal(Strip(v), Strip(w))
  {
    var dropped := ["capabilities", "allowedCommands"];
    WithoutKeys(v.fields, dropped);
    WithoutKeys(w.fields, dropped);
    forall k | k in Keys(Strip(v).fields) ensures Equal(Get(Strip(v).fields, k), Get(Strip(w).fields, k)) {
      WithoutGet(v.fields, dropped, k);
      WithoutGet(w.fields, dropped, k);
    }
  }

  /** Some change has a name. */
  ghost predicate Named(cs: seq<Classification>) {
    exists c :: c in cs && !c.Identical? && !c.UnknownChange?
  }

  /** The diff when the previous content is gone: only the key change, if any, is known. */
  function UnavailableDiff(previousKeyId: string, nextKeyId: string): (d: Diff)
    ensures Named(d.classifications) <==> previousKeyId != nextKeyId
    ensures UnknownChange in d.classifications <==> previousKeyId == nextKeyId
  {
    assert TemplateKeyChanged in [TemplateKeyChanged];
    Diff([if previousKeyId != nextKeyId then TemplateKeyChanged else UnknownChange], [], [], [], [], [], [], [], false)
  }

  /** The tool-template diff. It says `Identical` exactly when a previous template exists, the key ids agree
      and the two templates are equal; every other change is named. */
  method DiffToolTemplateSurfaces(previous: Option<Value>, next: Value, previousKeyId: string, nextKeyId: string)
    returns (d: Diff)
    requires IsToolTemplate(next) && (previous.Some? ==> IsToolTemplate(previous.value))
    ensures d.classifications != []
    ensures Identical in d.classifications <==>
              previous.Some? && previousKeyId == nextKeyId && Equal(previous.value, next)
    ensures Identical in d.classifications ==> d.classifications == [Identical]
    ensures UnknownChange in d.classifications
            <==> !Named(d.classifications) && (previous.None? || !Equal(previous.value, next))
    ensures TemplateKeyChanged in d.classifications <==> previousKeyId != nextKeyId
    ensures d.previousAvailable <==> previous.Some?
    ensures previous.None? ==> d == UnavailableDiff(previousKeyId, nextKeyId)
    ensures previous.Some? ==>
      var had, has := Strings(Lookup(previous.value, "capabilities")), Strings(Lookup(next, "capabilities"));
      && d.capabilitiesAdded == BoundList(Added(had, has)) && d.capabilitiesRemoved == BoundList(Added(has, had))
      && (CapabilityAdded in d.classifications <==> exists x :: x in has && x !in had)
      && (CapabilityRemoved in d.classifications <==> exists x :: x in had && x !in has)
    ensures previous.Some? ==>
      var had, has := CommandSurface(previous.value), CommandSurface(next);
      && d.commandsAdded == BoundList(Added(had, has)) && d.commandsRemoved == BoundList(Added(has, had))
      && (CommandAdded in d.classifications <==> exists x :: x in has && x !in had)
      && (CommandRemoved in d.classifications <==> exists x :: x in had && x !in has)
  {
    hide Equal, BoundList, IsToolTemplate, CommandSurface, Strip, Serialize, Lookup, WellFormed, IsJson;
    hide Named;
    if previous.None? {
      return UnavailableDiff(previousKeyId, nextKeyId);
    }
    var old_ := previous.value;
    ToolTemplateFacts(old_);
    ToolTemplateFacts(next);
    var had, has := Strings(Lookup(old_, "capabilities")), Strings(Lookup(next, "capabilities"));
    var capabilitiesAdded, capabilitiesRemoved := Added(had, has), Added(has, had);
    var previousCommands, nextCommands := CommandSurface(old_), CommandSurface(next);
    var commandsAdded := Added(previousCommands, nextCommands);
    var commandsRemoved := Added(nextCommands, previousCommands);
    var classifications := ClassifyTool(
      previousKeyId != nextKeyId, |capabilitiesAdded| > 0, |capabilitiesRemoved| > 0,
      |commandsAdded| > 0, |commandsRemoved| > 0,
      Serialize(Strip(old_)) != Serialize(Strip(next)), Serialize(old_) != Serialize(next));
    TextsDecide(old_, next);
    AddedIsEmpty(had, has);
    AddedIsEmpty(has, had);
    AddedIsEmpty(previousCommands, nextCommands);
    AddedIsEmpty(nextCommands, previousCommands);
    return Diff(classifications, BoundList(capabilitiesAdded), BoundList(capabilitiesRemoved),
                BoundList(commandsAdded), BoundList(commandsRemoved), [], [], [], true);
  }

  /** The named changes; only when there is none does the comparison of the whole texts decide. */
  method ClassifyTool(keyChanged: bool, capAdded: bool, capRemoved: bool, cmdAdded: bool, cmdRemoved: bool,
                      restDiffers: bool, differs: bool)
    returns (cs: seq<Classification>)
    ensures cs != []
    ensures Identical in cs <==>
              !keyChanged && !capAdded && !capRemoved && !cmdAdded && !cmdRemoved && !restDiffers && !differs
    ensures Identical in cs ==> cs == [Identical]
    ensures Named(cs) <==> keyChanged || capAdded || capRemoved || cmdAdded || cmdRemoved
    ensures UnknownChange in cs <==> !Named(cs) && (restDiffers || differs)
    ensures (TemplateKeyChanged in cs <==> keyChanged)
    ensures (CapabilityAdded in cs <==> capAdded) && (CapabilityRemoved in cs <==> capRemoved)
    ensures (CommandAdded in cs <==> cmdAdded) && (CommandRemoved in cs <==> cmdRemoved)
  {
    cs := AddIf([], keyChanged, TemplateKeyChanged);
    cs := AddIf(cs, capAdded, CapabilityAdded);
    cs := AddIf(cs, capRemoved, CapabilityRemoved);
    cs := AddIf(cs, cmdAdded, CommandAdded);
    cs := AddIf(cs, cmdRemoved, CommandRemoved);
    cs := AddIf(cs, |cs| == 0 && restDiffers, UnknownChange);
    if |cs| == 0 {
      cs := Add(cs, if differs then UnknownChange else Identical);
    }
  }

  lemma ToolTemplateFacts(v: Value)
    requires IsToolTemplate(v)
    ensures v.Object? && WellFormed(v) && IsJson(v)
    ensures IsStringArray(Lookup(v, "capabilities"))
  {
  }

  lemma AddedIsEmpty(had: seq<string>, has: seq<string>)
    ensures Added(had, has) == [] <==> forall x :: x in has ==> x in had
  {
    if Added(had, has) != [] {
      assert Added(had, has)[0] in Added(had, has);
    }
  }

  lemma TextsDecide(v: Value, w: Value)
    requires IsToolTemplate(v) && IsToolTemplate(w)
    ensures Serialize(v) == Serialize(w) <==> Equal(v, w)
    ensures Equal(v, w) ==> Serialize(Strip(v)) == Serialize(Strip(w))
    ensures Equal(v, w) ==> Strings(Lookup(v, "capabilities")) == Strings(Lookup(w, "capabilities"))
    ensures Equal(v, w) ==> CommandSurface(v) == CommandSurface(w)
  {
    SerializeDecidesEqual(v, w);
    if Equal(v, w) {
      EqualSurfaces(v, w);
      StripIsJson(v);
      StripIsJson(w);
      EqualStrip(v, w);
      SerializeDecidesEqual(Strip(v), Strip(w));
    }
  }

  // ---------- host resources of a bot package ----------

  function Nullish(v: Value, fallback: Value): Value {
    if v == Null || v == Undefined then fallback else v
  }

  /** The write policy at the top of a resource, else the one inside its spec. */
  function ResourceWritePolicy(resource: Value): Value {
    Nullish(Lookup(resource, "writePolicy"), SpecPolicy(resource))
  }

  function SpecPolicy(resource: Value): Value {
    Lookup(Lookup(resource, "spec"), "writePolicy")
  }

  /** What the manifest schema leaves of a resource: no policy but the one of a managed file, inside its spec. */
  predicate FromSchema(resource: Value) {
    && Lookup(resource, "writePolicy") == Undefined
    && SpecPolicy(resource) in {Undefined, String("always"), String("ifMissing")}
  }

  datatype Resource = Resource(id: string, value: Value)

  /** The entries that are objects with a string id, in order. */
  function ResourceList(items: seq<Value>): (r: seq<Resource>)
    ensures forall x :: x in r ==> x.value in items
  {
    if items == [] then []
    else
      var rest := ResourceList(items[1..]);
      if Lookup(items[0], "id").String? then [Resource(Lookup(items[0], "id").s, items[0])] + rest else rest
  }

  predicate HasId(list: seq<Resource>, id: string) {
    exists r :: r in list && r.id == id
  }

  /** The last entry with an id, which is what a map built from the list holds for it. */
  function Latest(list: seq<Resource>, id: string): (v: Value)
    requires HasId(list, id)
    ensures Resource(id, v) in list
    decreases |list|
  {
    var n := |list| - 1;
    if list[n].id == id then list[n].value
    else
      assert list == list[..n] + [list[n]];
      Latest(list[..n], id)
  }

  /** The keys of that map: each id once, where it first occurs. */
  function Ids(list: seq<Resource>): (ids: seq<string>)
    ensures forall id :: id in ids <==> HasId(list, id)
  {
    if list == [] then []
    else
      var n := |list| - 1;
      var ids := Ids(list[..n]);
      assert list == list[..n] + [list[n]];
      assert forall id :: HasId(list, id) <==> HasId(list[..n], id) || list[n].id == id by {
        forall id ensures HasId(list, id) <==> HasId(list[..n], id) || list[n].id == id {
          assert list[n] in list;
        }
      }
      if list[n].id in ids then ids else ids + [list[n].id]
  }

  ghost predicate IsManifest(v: Value) {
    WellFormed(v) && IsJson(v) && v.Object? && Lookup(v, "hostResources").Array?
  }

  function HostResources(manifest: Value): seq<Resource>
    requires Lookup(manifest, "hostResources").Array?
  {
    ResourceList(Lookup(manifest, "hostResources").items)
  }

  predicate ResourceDiffers(had: seq<Resource>, has: seq<Resource>, id: string) {
    HasId(had, id) && HasId(has, id) && Serialize(Latest(had, id)) != Serialize(Latest(has, id))
  }

  predicate PolicyDiffers(had: seq<Resource>, has: seq<Resource>, id: string) {
    && HasId(had, id) && HasId(has, id)
    && Serialize(ResourceWritePolicy(Latest(had, id))) != Serialize(ResourceWritePolicy(Latest(has, id)))
  }

  function MissingFrom(ids: seq<string>, list: seq<Resource>): (r: seq<string>)
    ensures forall id :: id in r <==> id in ids && !HasId(list, id)
  {
    if ids == [] then []
    else
      var n := |ids| - 1;
      assert ids == ids[..n] + [ids[n]];
      MissingFrom(ids[..n], list) + if HasId(list, ids[n]) then [] else [ids[n]]
  }

  function ChangedIn(ids: seq<string>, had: seq<Resource>, has: seq<Resource>): (r: seq<string>)
    ensures forall id :: id in r <==> id in ids && ResourceDiffers(had, has, id)
  {
    if ids == [] then []
    else
      var n := |ids| - 1;
      assert ids == ids[..n] + [ids[n]];
      ChangedIn(ids[..n], had, has) + if ResourceDiffers(had, has, ids[n]) then [ids[n]] else []
  }

  /** A policy is part of its resource, so it cannot differ between equal resources. */
  lemma EqualResourceEqualPolicy(v: Value, w: Value)
    requires WellFormed(v) && IsJson(v) && WellFormed(w) && IsJson(w)
    requires Serialize(v) == Serialize(w)
    ensures Serialize(ResourceWritePolicy(v)) == Serialize(ResourceWritePolicy(w))
  {
    SerializeDecidesEqual(v, w);
    EqualLookup(v, w, "writePolicy");
    EqualLookup(v, w, "spec");
    EqualLookup(Lookup(v, "spec"), Lookup(w, "spec"), "writePolicy");
    PolicyIsJson(v);
    PolicyIsJson(w);
    var p, q := ResourceWritePolicy(v), ResourceWritePolicy(w);
    if p != Undefined {
      SerializeDecidesEqual(p, q);
    }
  }

  lemma PolicyIsJson(v: Value)
    requires WellFormed(v) && IsJson(v)
    ensures WellFormed(ResourceWritePolicy(v))
    ensures ResourceWritePolicy(v) == Undefined || IsJson(ResourceWritePolicy(v))
  {
    LookupJson(v, "writePolicy");
    LookupJson(v, "spec");
    if Lookup(v, "spec") != Undefined {
      LookupJson(Lookup(v, "spec"), "writePolicy");
    }
  }

  lemma ResourcesAreJson(manifest: Value)
    requires IsManifest(manifest)
    ensures forall r :: r in HostResources(manifest) ==> WellFormed(r.value) && IsJson(r.value)
  {
    LookupJson(manifest, "hostResources");
    var items := Lookup(manifest, "hostResources").items;
    forall r | r in HostResources(manifest) ensures WellFormed(r.value) && IsJson(r.value) {
      var i :| 0 <= i < |items| && items[i] == r.value;
    }
  }

  ghost predicate SameResources(r: seq<Resource>, s: seq<Resource>) {
    |r| == |s| && forall i :: 0 <= i < |r| ==> r[i].id == s[i].id && Equal(r[i].value, s[i].value)
  }

  lemma PrependSame(x: Resource, y: Resource, r: seq<Resource>, s: seq<Resource>)
    requires SameResources(r, s) && x.id == y.id && Equal(x.value, y.value)
    ensures SameResources([x] + r, [y] + s)
  {
    hide Equal;
  }

  lemma {:induction false} EqualResourceLists(a: seq<Value>, b: seq<Value>)
    requires |a| == |b| && forall i :: 0 <= i < |a| ==> Equal(a[i], b[i])
    ensures SameResources(ResourceList(a), ResourceList(b))
  {
    hide Equal, Lookup;
    if a != [] {
      hide SameResources;
      EqualIds(a[0], b[0]);
      EqualResourceLists(a[1..], b[1..]);
      if Lookup(a[0], "id").String? {
        PrependSame(Resource(Lookup(a[0], "id").s, a[0]), Resource(Lookup(b[0], "id").s, b[0]),
          ResourceList(a[1..]), ResourceList(b[1..]));
      }
    }
  }

  lemma EqualIds(v: Value, w: Value)
    requires Equal(v, w)
    ensures Lookup(v, "id").String? <==> Lookup(w, "id").String?
    ensures Lookup(v, "id").String? ==> Lookup(v, "id") == Lookup(w, "id")
  {
    EqualLookup(v, w, "id");
  }

  lemma {:induction false} EqualLatest(r: seq<Resource>, s: seq<Resource>, id: string)
    requires SameResources(r, s)
    ensures HasId(r, id) <==> HasId(s, id)
    ensures HasId(r, id) ==> Equal(Latest(r, id), Latest(s, id))
    decreases |r|
  {
    hide Equal, HasId;
    if r == [] {
      NoneHasId(id);
    } else {
      var n := |r| - 1;
      LastHasId(r, id);
      LastHasId(s, id);
      EqualLatest(r[..n], s[..n], id);
    }
  }

  lemma NoneHasId(id: string)
    ensures !HasId([], id)
  {
  }

  lemma LastHasId(r: seq<Resource>, id: string)
    requires r != []
    ensures HasId(r, id) <==> r[|r| - 1].id == id || HasId(r[..|r| - 1], id)
  {
    var n := |r| - 1;
    assert r == r[..n] + [r[n]];
    assert r[n] in r;
  }

  /** Equal manifests show no resource difference. */
  lemma EqualManifests(v: Value, w: Value, id: string)
    requires IsManifest(v) && IsManifest(w) && Equal(v, w)
    ensures HasId(HostResources(v), id) <==> HasId(HostResources(w), id)
    ensures !ResourceDiffers(HostResources(v), HostResources(w), id)
    ensures !PolicyDiffers(HostResources(v), HostResources(w), id)
  {
    EqualLookup(v, w, "hostResources");
    EqualResourceLists(Lookup(v, "hostResources").items, Lookup(w, "hostResources").items);
    EqualLatest(HostResources(v), HostResources(w), id);
    ResourcesAreJson(v);
    ResourcesAreJson(w);
    if HasId(HostResources(v), id) {
      SerializeDecidesEqual(Latest(HostResources(v), id), Latest(HostResources(w), id));
      EqualResourceEqualPolicy(Latest(HostResources(v), id), Latest(HostResources(w), id));
    }
  }

  ghost predicate AllFromSchema(list: seq<Resource>) {
    forall r :: r in list ==> FromSchema(r.value)
  }

  /** Some resource in both lists has another policy. */
  ghost predicate PolicyFlips(had: seq<Resource>, has: seq<Resource>) {
    exists id :: HasId(had, id) && HasId(has, id) && SpecPolicy(Latest(had, id)) != SpecPolicy(Latest(has, id))
  }

  /** No policy flip is missed between manifests that the schema lets through. */
  lemma NoFlipMissed(had: seq<Resource>, has: seq<Resource>)
    requires AllFromSchema(had) && AllFromSchema(has)
    ensures (exists id :: PolicyDiffers(had, has, id)) <==> PolicyFlips(had, has)
  {
    hide Serialize, HasId, Lookup, SpecPolicy;
    forall id ensures PolicyDiffers(had, has, id)
      <==> (HasId(had, id) && HasId(has, id) && SpecPolicy(Latest(had, id)) != SpecPolicy(Latest(has, id)))
    {
      if HasId(had, id) && HasId(has, id) {
        assert Resource(id, Latest(had, id)) in had && Resource(id, Latest(has, id)) in has;
        PolicyTextsDecide(Latest(had, id), Latest(has, id));
      }
    }
  }

  lemma PolicyTextsDecide(p: Value, n: Value)
    requires FromSchema(p) && FromSchema(n)
    ensures Serialize(ResourceWritePolicy(p)) == Serialize(ResourceWritePolicy(n)) <==> SpecPolicy(p) == SpecPolicy(n)
  {
    hide Serialize, Lookup, SpecPolicy;
    SerializeDecidesSame(SpecPolicy(p), SpecPolicy(n));
  }

  /** The bot-package diff: `Identical` again exactly for equal manifests under one key, and each resource
      class exactly when some resource id shows it. */
  method DiffBotPackageSurfaces(previous: Option<Value>, next: Value, previousKeyId: string, nextKeyId: string)
    returns (d: Diff)
    requires IsManifest(next) && (previous.Some? ==> IsManifest(previous.value))
    ensures d.classifications != []
    ensures Identical in d.classifications <==>
              previous.Some? && previousKeyId == nextKeyId && Equal(previous.value, next)
    ensures Identical in d.classifications ==> d.classifications == [Identical]
    ensures UnknownChange in d.classifications
            <==> !Named(d.classifications) && (previous.None? || !Equal(previous.value, next))
    ensures TemplateKeyChanged in d.classifications <==> previousKeyId != nextKeyId
    ensures previous.None? ==> d == UnavailableDiff(previousKeyId, nextKeyId)
    ensures previous.Some? ==>
      var had, has := HostResources(previous.value), HostResources(next);
      && d.resourcesAdded == BoundList(MissingFrom(Ids(has), had))
      && d.resourcesRemoved == BoundList(MissingFrom(Ids(had), has))
      && d.resourcesChanged == BoundList(ChangedIn(Ids(has), had, has))
      && (ResourceAdded in d.classifications <==> exists id :: HasId(has, id) && !HasId(had, id))
      && (ResourceRemoved in d.classifications <==> exists id :: HasId(had, id) && !HasId(has, id))
      && (ResourceChanged in d.classifications <==> exists id :: ResourceDiffers(had, has, id))
      && (WritePolicyChanged in d.classifications <==> exists id :: PolicyDiffers(had, has, id))
      && (AllFromSchema(had) && AllFromSchema(has) ==>
        (WritePolicyChanged in d.classifications <==> PolicyFlips(had, has)))
  {
    hide Equal, BoundList, IsManifest, HostResources, Serialize, Lookup, HasId;
    hide MissingFrom, ChangedIn, Ids, ResourceDiffers, PolicyDiffers, AllFromSchema, PolicyFlips, Named;
    if previous.None? {
      return UnavailableDiff(previousKeyId, nextKeyId);
    }
    var had := ManifestResources(previous.value);
    var has := ManifestResources(next);
    var resourcesAdded, resourcesChanged, writePolicyChanged := CompareResources(had, has);
    var resourcesRemoved := RemovedResources(had, has);
    ManifestTextsDecide(previous.value, next);
    NonEmpty(resourcesAdded);
    NonEmpty(resourcesRemoved);
    var classifications := ClassifyResources(
      previousKeyId != nextKeyId, |resourcesAdded| > 0, |resourcesRemoved| > 0, |resourcesChanged| > 0,
      writePolicyChanged, Serialize(previous.value) != Serialize(next));
    if AllFromSchema(had) && AllFromSchema(has) {
      NoFlipMissed(had, has);
    }
    return Diff(classifications, [], [], [], [], BoundList(resourcesAdded), BoundList(resourcesRemoved),
                BoundList(resourcesChanged), true);
  }

  method CompareResources(had: seq<Resource>, has: seq<Resource>)
    returns (resourcesAdded: seq<string>, resourcesChanged: seq<string>, writePolicyChanged: bool)
    requires forall x :: x in had ==> WellFormed(x.value) && IsJson(x.value)
    requires forall x :: x in has ==> WellFormed(x.value) && IsJson(x.value)
    ensures resourcesAdded == MissingFrom(Ids(has), had)
    ensures resourcesChanged == ChangedIn(Ids(has), had, has)
    ensures |resourcesChanged| > 0 <==> exists id :: ResourceDiffers(had, has, id)
    ensures writePolicyChanged <==> exists id :: PolicyDiffers(had, has, id)
  {
    hide Serialize, ResourceWritePolicy, HasId, WellFormed, IsJson, MissingFrom, ChangedIn, ResourceDiffers, PolicyDiffers;
    var nextIds := Ids(has);
    NothingCompared(had, has);
    resourcesAdded, resourcesChanged, writePolicyChanged := [], [], false;
    for i := 0 to |nextIds|
      invariant resourcesAdded == MissingFrom(nextIds[..i], had)
      invariant resourcesChanged == ChangedIn(nextIds[..i], had, has)
      invariant writePolicyChanged <==> exists id :: id in nextIds[..i] && PolicyDiffers(had, has, id)
    {
      var id := nextIds[i];
      NextCompared(nextIds, i, had, has);
      DiffersAt(had, has, id);
      if !HasId(had, id) {
        resourcesAdded := resourcesAdded + [id];
      } else {
        var was, now := Latest(had, id), Latest(has, id);
        if Serialize(was) != Serialize(now) {
          resourcesChanged := resourcesChanged + [id];
          if Serialize(ResourceWritePolicy(was)) != Serialize(ResourceWritePolicy(now)) {
            writePolicyChanged := true;
          }
        } else {
          EqualResourceEqualPolicy(was, now);
        }
      }
    }
    assert nextIds[..|nextIds|] == nextIds;
    NonEmpty(resourcesChanged);
    forall id ensures (ResourceDiffers(had, has, id) || PolicyDiffers(had, has, id)) ==> id in nextIds {
      DiffersAt(had, has, id);
    }
  }

  lemma NothingCompared(had: seq<Resource>, has: seq<Resource>)
    ensures MissingFrom([], had) == [] && ChangedIn([], had, has) == []
  {
  }

  lemma NextCompared(ids: seq<string>, i: nat, had: seq<Resource>, has: seq<Resource>)
    requires i < |ids|
    ensures ids[..i + 1] == ids[..i] + [ids[i]]
    ensures MissingFrom(ids[..i + 1], had) == MissingFrom(ids[..i], had) + if HasId(had, ids[i]) then [] else [ids[i]]
    ensures ChangedIn(ids[..i + 1], had, has)
      == ChangedIn(ids[..i], had, has) + if ResourceDiffers(had, has, ids[i]) then [ids[i]] else []
  {
    hide HasId, ResourceDiffers;
    assert ids[..i + 1][..i] == ids[..i];
  }

  lemma DiffersAt(had: seq<Resource>, has: seq<Resource>, id: string)
    ensures HasId(has, id) <==> id in Ids(has)
    ensures ResourceDiffers(had, has, id)
      <==> HasId(had, id) && HasId(has, id) && Serialize(Latest(had, id)) != Serialize(Latest(has, id))
    ensures PolicyDiffers(had, has, id)
      <==> (HasId(had, id) && HasId(has, id)
            && Serialize(ResourceWritePolicy(Latest(had, id))) != Serialize(ResourceWritePolicy(Latest(has, id))))
  {
    hide HasId, Serialize, ResourceWritePolicy;
  }

  method RemovedResources(had: seq<Resource>, has: seq<Resource>) returns (resourcesRemoved: seq<string>)
    ensures resourcesRemoved == MissingFrom(Ids(had), has)
  {
    var previousIds := Ids(had);
    resourcesRemoved := [];
    for i := 0 to |previousIds|
      invariant resourcesRemoved == MissingFrom(previousIds[..i], has)
    {
      assert previousIds[..i + 1][..i] == previousIds[..i];
      if !HasId(has, previousIds[i]) {
        resourcesRemoved := resourcesRemoved + [previousIds[i]];
      }
    }
    assert previousIds[..|previousIds|] == previousIds;
  }

  method ManifestResources(manifest: Value) returns (r: seq<Resource>)
    requires IsManifest(manifest)
    ensures Lookup(manifest, "hostResources").Array? && r == HostResources(manifest)
    ensures forall x :: x in r ==> WellFormed(x.value) && IsJson(x.value)
  {
    ResourcesAreJson(manifest);
    return HostResources(manifest);
  }

  lemma NonEmpty(s: seq<string>)
    ensures |s| > 0 <==> exists x :: x in s
  {
    assert |s| > 0 ==> s[0] in s;
  }

  lemma ManifestTextsDecide(v: Value, w: Value)
    requires IsManifest(v) && IsManifest(w)
    ensures Serialize(v) == Serialize(w) <==> Equal(v, w)
    ensures Equal(v, w) ==>
      forall id :: && (HasId(HostResources(v), id) <==> HasId(HostResources(w), id))
                   && !ResourceDiffers(HostResources(v), HostResources(w), id)
                   && !PolicyDiffers(HostResources(v), HostResources(w), id)
  {
    SerializeDecidesEqual(v, w);
    if Equal(v, w) {
      forall id ensures && (HasId(HostResources(v), id) <==> HasId(HostResources(w), id))
                        && !ResourceDiffers(HostResources(v), HostResources(w), id)
                        && !PolicyDiffers(HostResources(v), HostResources(w), id) {
        EqualManifests(v, w, id);
      }
    }
  }

  method ClassifyResources(keyChanged: bool, added: bool, removed: bool, changed: bool, policyChanged: bool, differs: bool)
    returns (cs: seq<Classification>)
    ensures cs != []
    ensures Identical in cs <==> !keyChanged && !added && !removed && !changed && !policyChanged && !differs
    ensures Identical in cs ==> cs == [Identical]
    ensures Named(cs) <==> keyChanged || added || removed || changed || policyChanged
    ensures UnknownChange in cs <==> !Named(cs) && differs
    ensures (TemplateKeyChanged in cs <==> keyChanged) && (ResourceAdded in cs <==> added)
    ensures (ResourceRemoved in cs <==> removed) && (ResourceChanged in cs <==> changed)
    ensures WritePolicyChanged in cs <==> policyChanged
  {
    cs := AddIf([], keyChanged, TemplateKeyChanged);
    cs := AddIf(cs, added, ResourceAdded);
    cs := AddIf(cs, removed, ResourceRemoved);
    cs := AddIf(cs, changed, ResourceChanged);
    cs := AddIf(cs, policyChanged, WritePolicyChanged);
    if |cs| == 0 {
      cs := Add(cs, if differs then UnknownChange else Identical);
    }
  }

  // A remark on the fallback from the top-level policy to the one inside the spec: where a resource has both, the first
  // hides the second. The manifest schema lets no resource through that has both.

  predicate Given(v: Value) {
    v != Null && v != Undefined
  }

  /** When a different policy inside the spec does not show. */
  lemma HiddenIff(p: Value, n: Value)
    requires Serialize(SpecPolicy(p)) != Serialize(SpecPolicy(n))
    ensures var a, b := Lookup(p, "writePolicy"), Lookup(n, "writePolicy");
      Serialize(ResourceWritePolicy(p)) == Serialize(ResourceWritePolicy(n)) <==>
        if Given(a) && Given(b) then Serialize(a) == Serialize(b)
        else if Given(a) then Serialize(a) == Serialize(SpecPolicy(n))
        else Given(b) && Serialize(SpecPolicy(p)) == Serialize(b)
  {
  }

  /** A concrete pair of resources whose flip is hidden. */
  lemma HiddenPolicyFlip()
    ensures var top := Field("writePolicy", String("always"));
      var p := Object([top, Field("spec", Object([Field("writePolicy", String("ifMissing"))]))]);
      var n := Object([top, Field("spec", Object([Field("writePolicy", String("always"))]))]);
      && Serialize(SpecPolicy(p)) != Serialize(SpecPolicy(n))
      && Serialize(ResourceWritePolicy(p)) == Serialize(ResourceWritePolicy(n))
  {
    hide Serialize, ResourceWritePolicy, Lookup;
    var s, t := String("ifMissing"), String("always");
    TextsDiffer(s, t);
    PolicyUnderTop(t, s);
    PolicyUnderTop(t, t);
  }

  lemma TextsDiffer(s: Value, t: Value)
    requires s.String? && t.String? && s != t
    ensures Serialize(s) != Serialize(t)
  {
    SerializeDecidesSame(s, t);
  }

  lemma PolicyUnderTop(top: Value, inner: Value)
    requires top.String?
    ensures var r := Object([Field("writePolicy", top), Field("spec", Object([Field("writePolicy", inner)]))]);
      ResourceWritePolicy(r) == top && SpecPolicy(r) == inner
  {
    hide Lookup;
    var spec := Object([Field("writePolicy", inner)]);
    LookupFirst([Field("writePolicy", inner)]);
    LookupFirst([Field("writePolicy", top), Field("spec", spec)]);
    LookupSecond([Field("writePolicy", top), Field("spec", spec)]);
  }

  lemma LookupFirst(fields: seq<Field>)
    requires fields != []
    ensures Lookup(Object(fields), fields[0].key) == fields[0].value
  {
    assert Keys(fields)[0] == fields[0].key;
  }

  lemma LookupSecond(fields: seq<Field>)
    requires |fields| == 2 && fields[0].key != fields[1].key
    ensures Lookup(Object(fields), fields[1].key) == fields[1].value
  {
    assert Keys(fields)[1] == fields[1].key;
    assert fields[1..] == [fields[1]];
  }
}
