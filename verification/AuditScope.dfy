/** The audit scope: the configured list of recorded actions, its normal form, and the
    precompiled bit mask the audit path asks. An action is its index in the catalogue. */
module AuditScope {
  import opened Text
  import Json

  /** The action catalogue: wire names in authoritative order, and which of the actions are
      workspace mutations. */
  datatype Catalog = Catalog(names: seq<string>, workspace: seq<bool>) {
    ghost predicate Valid() {
      && |names| == |workspace|
      && (forall i, j :: 0 <= i < j < |names| ==> names[i] != names[j])
    }
  }

  // ---- bit masks ------------------------------------------------------------

  /** Ceiling division: the number of 64-bit words for `count` actions. */
  function Words(count: nat): (w: nat)
    ensures forall i :: 0 <= i < count ==> i / 64 < w
  {
    (count + 63) / 64
  }

  function Bit(index: nat): bv64 {
    (1 as bv64) << ((index % 64) as bv6)
  }

  predicate Has(word: bv64, bit: bv64) { word & bit != 0 }

  function Or(word: bv64, bit: bv64): bv64 { word | bit }

  predicate MaskContains(mask: seq<bv64>, index: nat)
    requires index / 64 < |mask|
  {
    Has(mask[index / 64], Bit(index))
  }

  function WithBit(mask: seq<bv64>, index: nat): seq<bv64>
    requires index / 64 < |mask|
  {
    mask[index / 64 := Or(mask[index / 64], Bit(index))]
  }

  method SetMaskBit(mask: array<bv64>, index: nat)
    requires index / 64 < mask.Length
    modifies mask
    ensures mask[..] == WithBit(old(mask[..]), index)
  {
    hide Bit, Or;
    var word := index / 64;
    mask[word] := Or(mask[word], Bit(index));
  }

  lemma SmallRoundTrip(b: nat)
    requires b < 64
    ensures (b as bv6) as nat == b
  {
  }

  lemma ShiftsDiffer(p: bv6, q: bv6)
    requires p != q
    ensures ((1 as bv64) << p) & ((1 as bv64) << q) == 0
  {
  }

  lemma ShiftNonZero(p: bv6)
    ensures (1 as bv64) << p != 0
  {
  }

  lemma OrDistributes(x: bv64, p: bv64, q: bv64)
    ensures (x | p) & q == (x & q) | (p & q)
  {
  }

  lemma OrNothing(x: bv64)
    ensures x | 0 == x
  {
  }

  lemma OrKeeps(x: bv64, p: bv64, q: bv64)
    requires !Has(p, q)
    ensures Has(Or(x, p), q) <==> Has(x, q)
  {
    OrDistributes(x, p, q);
    OrNothing(x & q);
  }

  lemma OrSets(x: bv64, p: bv64)
    requires p != 0
    ensures Has(Or(x, p), p)
  {
  }

  lemma BitsDiffer(b: nat, c: nat)
    requires b % 64 != c % 64
    ensures !Has(Bit(b), Bit(c))
  {
    SmallRoundTrip(b % 64);
    SmallRoundTrip(c % 64);
    ShiftsDiffer((b % 64) as bv6, (c % 64) as bv6);
  }

  lemma BitNonZero(b: nat)
    ensures Bit(b) != 0
  {
    ShiftNonZero((b % 64) as bv6);
  }

  /** Inside one word, setting a bit sets that bit and disturbs no other. */
  lemma OrHas(word: bv64, index: nat, other: nat)
    ensures Has(Or(word, Bit(index)), Bit(other)) <==> index % 64 == other % 64 || Has(word, Bit(other))
  {
    hide Bit, Has, Or;
    if index % 64 == other % 64 {
      BitNonZero(index);
      BitsSame(index, other);
      OrSets(word, Bit(index));
    } else {
      BitsDiffer(index, other);
      OrKeeps(word, Bit(index), Bit(other));
    }
  }

  lemma BitsSame(b: nat, c: nat)
    requires b % 64 == c % 64
    ensures Bit(b) == Bit(c)
  {
  }

  /** Setting one bit sets that bit and disturbs no other, in its own word or across words. */
  lemma WithBitContains(mask: seq<bv64>, index: nat, other: nat)
    requires index / 64 < |mask| && other / 64 < |mask|
    ensures MaskContains(WithBit(mask, index), other) <==> index == other || MaskContains(mask, other)
  {
    hide Bit, Has, Or;
    OrHas(mask[index / 64], index, other);
    assert index == other <==> index / 64 == other / 64 && index % 64 == other % 64;
  }

  /** All actions have their bit inside the mask. */
  predicate Fits(actions: seq<nat>, words: nat) {
    forall k :: 0 <= k < |actions| ==> actions[k] / 64 < words
  }

  /** The mask of a list of actions, one bit after the other. */
  function FoldBits(mask: seq<bv64>, actions: seq<nat>): (r: seq<bv64>)
    requires Fits(actions, |mask|)
    ensures |r| == |mask|
  {
    if actions == [] then mask
    else WithBit(FoldBits(mask, actions[..|actions| - 1]), actions[|actions| - 1])
  }

  function EmptyMask(words: nat): seq<bv64> {
    seq(words, _ => 0)
  }

  lemma EmptyHasNothing(bit: bv64)
    ensures !Has(0, bit)
  {
  }

  /** A folded mask contains exactly the actions folded into it. */
  lemma {:induction false} FoldBitsContains(words: nat, actions: seq<nat>, other: nat)
    requires Fits(actions, words) && other / 64 < words
    ensures MaskContains(FoldBits(EmptyMask(words), actions), other) <==> other in actions
    decreases |actions|
  {
    hide Bit, Has, Or, WithBit, MaskContains;
    if actions == [] {
      EmptyContainsNothing(words, other);
    } else {
      var n := |actions| - 1;
      FoldBitsContains(words, actions[..n], other);
      WithBitContains(FoldBits(EmptyMask(words), actions[..n]), actions[n], other);
      assert actions == actions[..n] + [actions[n]];
    }
  }

  lemma EmptyContainsNothing(words: nat, other: nat)
    requires other / 64 < words
    ensures !MaskContains(EmptyMask(words), other)
  {
    hide Bit, Has;
    EmptyHasNothing(Bit(other));
  }

  /** The fold that precompiles a mask, on an array updated in place. */
  method BuildMask(words: nat, actions: seq<nat>) returns (mask: array<bv64>)
    requires Fits(actions, words)
    ensures fresh(mask) && mask[..] == FoldBits(EmptyMask(words), actions)
  {
    hide Bit, WithBit;
    mask := new bv64[words](_ => 0);
    assert mask[..] == EmptyMask(words);
    for n := 0 to |actions|
      invariant mask[..] == FoldBits(EmptyMask(words), actions[..n])
    {
      assert actions[..n + 1][..n] == actions[..n];
      SetMaskBit(mask, actions[n]);
    }
    assert actions[..|actions|] == actions;
  }

  // ---- the configured list --------------------------------------------------

  /** `AuditAction::from_str_name`. */
  function LookUp(names: seq<string>, raw: string): (r: Option<nat>)
    ensures r.Some? ==> r.value < |names| && names[r.value] == raw
    ensures r.None? ==> raw !in names
  {
    if names == [] then None
    else if names[|names| - 1] == raw then Some(|names| - 1)
    else LookUp(names[..|names| - 1], raw)
  }

  lemma LookUpName(c: Catalog, i: nat)
    requires c.Valid() && i < |c.names|
    ensures LookUp(c.names, c.names[i]) == Some(i)
  {
    hide LookUp;
  }

  /** A list is accepted if all names are known and none is repeated. */
  predicate Accepted(names: seq<string>, items: seq<string>) {
    && (forall k :: 0 <= k < |items| ==> items[k] in names)
    && (forall i, j :: 0 <= i < j < |items| ==> items[i] != items[j])
  }

  function Indices(names: seq<string>, items: seq<string>): (r: seq<nat>)
    requires forall k :: 0 <= k < |items| ==> items[k] in names
    ensures |r| == |items|
    ensures forall k :: 0 <= k < |r| ==> r[k] < |names| && names[r[k]] == items[k]
  {
    seq(|items|, k requires 0 <= k < |items| => LookUp(names, items[k]).value)
  }

  /** The actions of an accepted list. */
  function IndicesOf(names: seq<string>, items: seq<string>): seq<nat> {
    if Accepted(names, items) then Indices(names, items) else []
  }

  lemma AcceptNothing(names: seq<string>)
    ensures Accepted(names, []) && IndicesOf(names, []) == []
  {
  }

  lemma RejectUnknown(names: seq<string>, items: seq<string>, n: nat)
    requires n < |items| && items[n] !in names
    ensures !Accepted(names, items)
  {
  }

  /** The configured list as actions; `None` is the validation error. */
  function ParseRecorded(c: Catalog, value: string): Option<seq<nat>> {
    match Json.Decode(Trim(value))
    case None => None
    case Some(items) => if Accepted(c.names, items) then Some(IndicesOf(c.names, items)) else None
  }

  lemma AcceptStep(c: Catalog, items: seq<string>, x: string, index: nat)
    requires c.Valid() && Accepted(c.names, items) && LookUp(c.names, x) == Some(index)
    ensures Accepted(c.names, items + [x]) <==> x !in items
    ensures x !in items ==> IndicesOf(c.names, items + [x]) == IndicesOf(c.names, items) + [index]
  {
    hide LookUp;
    var all := items + [x];
    assert forall k :: 0 <= k < |items| ==> all[k] == items[k];
    if x in items {
      var k :| 0 <= k < |items| && items[k] == x;
      assert all[k] == all[|items|];
    }
  }

  lemma AcceptedPrefix(names: seq<string>, items: seq<string>, n: nat)
    requires n <= |items| && Accepted(names, items)
    ensures Accepted(names, items[..n])
  {
  }

  /** The parsing loop with its array of actions seen so far. */
  method ParseRecordedActions(c: Catalog, value: string) returns (actions: Option<seq<nat>>)
    requires c.Valid()
    ensures actions == ParseRecorded(c, value)
  {
    hide LookUp, Json.Decode, Accepted, Indices;
    match Json.Decode(Trim(value)) {
      case None => return None;
      case Some(values) =>
        var seen := new bool[|c.names|](_ => false);
        var result: seq<nat> := [];
        AcceptNothing(c.names);
        for n := 0 to |values|
          invariant Accepted(c.names, values[..n])
          invariant result == IndicesOf(c.names, values[..n])
          invariant forall i :: 0 <= i < |c.names| ==> (seen[i] <==> c.names[i] in values[..n])
        {
          assert values[..n + 1] == values[..n] + [values[n]];
          if Accepted(c.names, values) {
            AcceptedPrefix(c.names, values, n + 1);
          }
          match LookUp(c.names, values[n]) {
            case None =>
              RejectUnknown(c.names, values, n);
              return None;
            case Some(index) =>
              AcceptStep(c, values[..n], values[n], index);
              if seen[index] { return None; }
              seen[index] := true;
              result := result + [index];
          }
        }
        assert values[..|values|] == values;
        return Some(result);
    }
  }

  // ---- normal form ----------------------------------------------------------

  function Chosen(actions: seq<nat>): set<nat> {
    set i | i in actions
  }

  /** The chosen actions below `n` in catalogue order. */
  function Ascending(chosen: set<nat>, n: nat): (r: seq<nat>)
    ensures forall k :: 0 <= k < |r| ==> r[k] < n && r[k] in chosen
    ensures forall i: nat :: i < n && i in chosen ==> i in r
    ensures forall i, j :: 0 <= i < j < |r| ==> r[i] < r[j]
  {
    if n == 0 then []
    else Ascending(chosen, n - 1) + if n - 1 in chosen then [n - 1] else []
  }

  function NamesAt(names: seq<string>, indices: seq<nat>): (r: seq<string>)
    requires forall k :: 0 <= k < |indices| ==> indices[k] < |names|
    ensures |r| == |indices| && forall k :: 0 <= k < |r| ==> r[k] == names[indices[k]]
  {
    seq(|indices|, k requires 0 <= k < |indices| => names[indices[k]])
  }

  predicate Configurable(c: Catalog, actions: seq<nat>)
  {
    forall k :: 0 <= k < |actions| ==> actions[k] < |c.workspace| && !c.workspace[actions[k]]
  }

  /** The stored form: the chosen actions, each once, in catalogue order; workspace mutations
      cannot be chosen. */
  function NormalizeRecorded(c: Catalog, value: string): Option<string> {
    match ParseRecorded(c, value)
    case None => None
    case Some(actions) =>
      if Configurable(c, actions)
      then Some(Json.Encode(NamesAt(c.names, Ascending(Chosen(actions), |c.names|))))
      else None
  }

  /** The normalising loop with its array of selected actions. */
  method NormalizeRecordedActions(c: Catalog, value: string) returns (normalized: Option<string>)
    requires c.Valid()
    ensures normalized == NormalizeRecorded(c, value)
  {
    hide ParseRecorded, Ascending, Json.Encode;
    var parsed := ParseRecordedActions(c, value);
    if parsed.None? { return None; }
    var actions := parsed.value;
    ParsedAreActions(c, value);
    var selected := new bool[|c.names|](_ => false);
    for n := 0 to |actions|
      invariant Configurable(c, actions[..n])
      invariant forall i :: 0 <= i < |c.names| ==> (selected[i] <==> i in actions[..n])
    {
      assert actions[..n + 1] == actions[..n] + [actions[n]];
      if c.workspace[actions[n]] { return None; }
      selected[actions[n]] := true;
    }
    assert actions[..|actions|] == actions;
    var chosen := Chosen(actions);
    assert forall i :: i in chosen ==> !c.workspace[i];
    var names: seq<string> := [];
    AscendingStart(c.names, chosen);
    for n := 0 to |c.names|
      invariant names == NamesAt(c.names, Ascending(chosen, n))
      invariant forall i :: 0 <= i < |c.names| ==> (selected[i] <==> i in chosen)
    {
      AscendingStep(c.names, chosen, n);
      if selected[n] && !c.workspace[n] {
        names := names + [c.names[n]];
      }
    }
    return Some(Json.Encode(names));
  }

  lemma AscendingStart(names: seq<string>, chosen: set<nat>)
    ensures NamesAt(names, Ascending(chosen, 0)) == []
  {
  }

  lemma AscendingStep(names: seq<string>, chosen: set<nat>, n: nat)
    requires n < |names|
    ensures NamesAt(names, Ascending(chosen, n + 1)) ==
            if n in chosen then NamesAt(names, Ascending(chosen, n)) + [names[n]]
            else NamesAt(names, Ascending(chosen, n))
  {
  }

  lemma ParsedAreActions(c: Catalog, value: string)
    requires ParseRecorded(c, value).Some?
    ensures forall k :: 0 <= k < |ParseRecorded(c, value).value| ==> ParseRecorded(c, value).value[k] < |c.names|
  {
    hide Accepted, Json.Decode;
  }

  /** Parsing a list written in catalogue order gives back its actions. */
  lemma ParseWritten(c: Catalog, chosen: set<nat>)
    requires c.Valid()
    ensures ParseRecorded(c, Json.Encode(NamesAt(c.names, Ascending(chosen, |c.names|))))
            == Some(Ascending(chosen, |c.names|))
  {
    hide Json.Decode, Json.Encode, Ascending, Text.Trim, LookUp;
    var indices := Ascending(chosen, |c.names|);
    var items := NamesAt(c.names, indices);
    Json.EncodedIsTrimmed(items);
    Json.RoundTrip(items);
    assert Accepted(c.names, items);
    var back := Indices(c.names, items);
    forall k | 0 <= k < |indices| ensures back[k] == indices[k] {
      assert c.names[back[k]] == c.names[indices[k]];
    }
    assert back == indices;
  }

  lemma SameChoice(a: seq<nat>, n: nat)
    requires forall k :: 0 <= k < |a| ==> a[k] < n
    ensures Chosen(Ascending(Chosen(a), n)) == Chosen(a)
  {
    hide Ascending;
  }

  /** The normal form is a fixed point and parses to the same choice of actions. */
  lemma NormalFormIsStable(c: Catalog, value: string)
    requires c.Valid() && NormalizeRecorded(c, value).Some?
    ensures var stored := NormalizeRecorded(c, value).value;
            && NormalizeRecorded(c, stored) == Some(stored)
            && ParseRecorded(c, stored).Some?
            && Chosen(ParseRecorded(c, stored).value) == Chosen(ParseRecorded(c, value).value)
            && (forall i, j :: 0 <= i < j < |ParseRecorded(c, stored).value| ==>
                  ParseRecorded(c, stored).value[i] < ParseRecorded(c, stored).value[j])
  {
    hide ParseRecorded, Ascending, Json.Encode;
    var actions := ParseRecorded(c, value).value;
    var chosen := Chosen(actions);
    ParsedAreActions(c, value);
    ParseWritten(c, chosen);
    SameChoice(actions, |c.names|);
    var indices := Ascending(chosen, |c.names|);
    forall k | 0 <= k < |indices| ensures indices[k] < |c.workspace| && !c.workspace[indices[k]] {
      assert indices[k] in actions;
    }
  }

  /** The normal form depends only on the set of accepted names. */
  lemma NormalFormIsCanonical(c: Catalog, a: string, b: string)
    requires c.Valid() && NormalizeRecorded(c, a).Some? && NormalizeRecorded(c, b).Some?
    ensures NormalizeRecorded(c, a) == NormalizeRecorded(c, b) <==>
            Chosen(ParseRecorded(c, a).value) == Chosen(ParseRecorded(c, b).value)
  {
    hide ParseRecorded, Ascending, Json.Encode;
    NormalFormIsStable(c, a);
    NormalFormIsStable(c, b);
  }

  // ---- runtime settings -----------------------------------------------------

  function ParseBoolLike(value: string): Option<bool> {
    var v := LowerAll(Trim(value));
    if v == "true" || v == "1" || v == "yes" || v == "on" then Some(true)
    else if v == "false" || v == "0" || v == "no" || v == "off" then Some(false)
    else None
  }

  datatype Settings = Settings(enabled: bool, mask: seq<bv64>)

  const ENABLED_BY_DEFAULT := true

  /** All actions that can be configured. */
  function AllActions(c: Catalog): seq<nat>
    requires |c.names| == |c.workspace|
  {
    Ascending((set i: nat | i < |c.names| && !c.workspace[i]), |c.names|)
  }

  /** The actions a raw list stands for at run time: an invalid one records everything. */
  function RuntimeActions(c: Catalog, raw: Option<string>): seq<nat>
    requires |c.names| == |c.workspace|
  {
    match raw
    case None => AllActions(c)
    case Some(value) =>
      match ParseRecorded(c, value)
      case Some(actions) => actions
      case None => AllActions(c)
  }

  function EnabledFrom(raw: Option<string>): bool {
    match raw
    case None => ENABLED_BY_DEFAULT
    case Some(value) =>
      match ParseBoolLike(value)
      case Some(b) => b
      case None => ENABLED_BY_DEFAULT
  }

  lemma RuntimeActionsFit(c: Catalog, raw: Option<string>)
    requires |c.names| == |c.workspace|
    ensures Fits(RuntimeActions(c, raw), Words(|c.names|))
  {
    hide ParseRecorded, Ascending, Words;
    if raw.Some? && ParseRecorded(c, raw.value).Some? {
      ParsedAreActions(c, raw.value);
    }
  }

  /** `AuditLogRuntimeSettings::from_raw_values`. */
  function FromRaw(c: Catalog, enabled: Option<string>, actions: Option<string>): Settings
    requires |c.names| == |c.workspace|
  {
    RuntimeActionsFit(c, actions);
    Settings(EnabledFrom(enabled), FoldBits(EmptyMask(Words(|c.names|)), RuntimeActions(c, actions)))
  }

  predicate ShouldRecord(c: Catalog, s: Settings, action: nat)
    requires |c.names| == |c.workspace| && action < |c.names| && |s.mask| == Words(|c.names|)
  {
    s.enabled && !c.workspace[action] && MaskContains(s.mask, action)
  }

  /** The list names the action, or is absent or invalid. */
  predicate InScope(c: Catalog, raw: Option<string>, action: nat)
    requires action < |c.names|
  {
    match raw
    case None => true
    case Some(value) =>
      match Json.Decode(Trim(value))
      case None => true
      case Some(items) => !Accepted(c.names, items) || c.names[action] in items
  }

  /** The mask answers what the configured set says, for any catalogue and any raw values. */
  lemma MaskRefinesSet(c: Catalog, enabled: Option<string>, actions: Option<string>, action: nat)
    requires c.Valid() && action < |c.names|
    ensures |FromRaw(c, enabled, actions).mask| == Words(|c.names|)
    ensures ShouldRecord(c, FromRaw(c, enabled, actions), action) <==>
            EnabledFrom(enabled) && !c.workspace[action] && InScope(c, actions, action)
  {
    hide FoldBits, MaskContains, ParseBoolLike, RuntimeActions, InScope;
    RuntimeActionsFit(c, actions);
    FoldBitsContains(Words(|c.names|), RuntimeActions(c, actions), action);
    if !c.workspace[action] {
      RuntimeActionsInScope(c, actions, action);
    }
  }

  lemma RuntimeActionsInScope(c: Catalog, raw: Option<string>, action: nat)
    requires c.Valid() && action < |c.names| && !c.workspace[action]
    ensures action in RuntimeActions(c, raw) <==> InScope(c, raw, action)
  {
    hide Json.Decode, LookUp, Text.Trim;
    if raw.Some? && ParseRecorded(c, raw.value).Some? {
      var items := Json.Decode(Trim(raw.value)).value;
      var back := Indices(c.names, items);
      assert forall k :: 0 <= k < |items| ==> (back[k] == action <==> items[k] == c.names[action]);
      if c.names[action] in items {
        var k :| 0 <= k < |items| && items[k] == c.names[action];
        assert back[k] in back;
      }
    }
  }

  /** Storing the normal form changes no recording decision. */
  lemma NormalFormKeepsScope(c: Catalog, enabled: Option<string>, value: string, action: nat)
    requires c.Valid() && action < |c.names| && NormalizeRecorded(c, value).Some?
    ensures |FromRaw(c, enabled, Some(value)).mask| == Words(|c.names|)
    ensures |FromRaw(c, enabled, NormalizeRecorded(c, value)).mask| == Words(|c.names|)
    ensures ShouldRecord(c, FromRaw(c, enabled, NormalizeRecorded(c, value)), action) <==>
            ShouldRecord(c, FromRaw(c, enabled, Some(value)), action)
  {
    hide ParseRecorded, FoldBits, Ascending, Json.Encode, MaskContains, ParseBoolLike;
    NormalFormIsStable(c, value);
    var stored := NormalizeRecorded(c, value).value;
    var a, b := ParseRecorded(c, value).value, ParseRecorded(c, stored).value;
    RuntimeActionsFit(c, Some(value));
    RuntimeActionsFit(c, Some(stored));
    FoldBitsContains(Words(|c.names|), a, action);
    FoldBitsContains(Words(|c.names|), b, action);
    assert action in a <==> action in Chosen(a);
    assert action in b <==> action in Chosen(b);
  }

  /** The words a switch understands, in any case and with spaces around. */
  lemma BoolLikeMeans(value: string)
    ensures ParseBoolLike(value) == Some(true) <==> LowerAll(Trim(value)) in {"true", "1", "yes", "on"}
    ensures ParseBoolLike(value) == Some(false) <==> LowerAll(Trim(value)) in {"false", "0", "no", "off"}
  {
    hide Text.Trim, Text.LowerAll;
  }

  /** Only one of the words for off switches recording off; nothing stored, or anything else, does not. */
  lemma EnabledMeans(raw: Option<string>)
    ensures EnabledFrom(raw) <==> raw == None || LowerAll(Trim(raw.value)) !in {"false", "0", "no", "off"}
  {
    hide Text.Trim, Text.LowerAll;
  }

  /** Which lists are taken, and as what: known names without repetition, as their positions in the
      catalogue and in the order given; an unknown or repeated name refuses the list. */
  lemma RecordedMeans(c: Catalog, items: seq<string>)
    requires c.Valid()
    ensures var r := ParseRecorded(c, Json.Encode(items));
            && (r == None <==>
                  || (exists k :: 0 <= k < |items| && items[k] !in c.names)
                  || (exists i, j :: 0 <= i < j < |items| && items[i] == items[j]))
            && (r.Some? ==>
                  && |r.value| == |items|
                  && forall k :: 0 <= k < |items| ==> r.value[k] < |c.names| && c.names[r.value[k]] == items[k])
  {
    hide Json.Decode, Json.Encode, Text.Trim, LookUp;
    Json.EncodedIsTrimmed(items);
    Json.RoundTrip(items);
  }

  /** A workspace mutation among the actions refuses the list for storing; otherwise the chosen names
      are stored in catalogue order, each once. */
  lemma NormalizedMeans(c: Catalog, value: string)
    requires c.Valid() && ParseRecorded(c, value).Some?
    ensures var actions := ParseRecorded(c, value).value;
            && (NormalizeRecorded(c, value) == None <==>
                  exists k :: 0 <= k < |actions| && actions[k] < |c.workspace| && c.workspace[actions[k]])
            && (NormalizeRecorded(c, value).Some? ==>
                  exists order: seq<nat> ::
                    && (forall i, j :: 0 <= i < j < |order| ==> order[i] < order[j])
                    && (forall i :: i in order <==> i in actions)
                    && (forall k :: 0 <= k < |order| ==> order[k] < |c.names|)
                    && NormalizeRecorded(c, value).value == Json.Encode(NamesAt(c.names, order)))
  {
    hide ParseRecorded, Ascending, Json.Encode;
    ParsedAreActions(c, value);
    var actions := ParseRecorded(c, value).value;
    if NormalizeRecorded(c, value).Some? {
      var order := Ascending(Chosen(actions), |c.names|);
      assert forall i :: i in order <==> i in actions;
    }
  }
}
