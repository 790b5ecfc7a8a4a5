/** Redaction of value trees before they reach telemetry. */
module Redaction {
  import opened Common
  import opened SensitiveKeys

  const PLACEHOLDER := "[REDACTED]"
  const MAX_DEPTH: nat := 8

  /**
    A dynamic Go value, by how the redactor treats it. Opaque stands for values it returns unchanged
    although they may hold others: structs, and maps whose keys are not strings.
   */
  datatype Value =
    | Nil | NilPointer
    | Text(text: string)
    | Scalar(number: int)
    | Header(header: map<string, seq<string>>)
    | QueryValues(query: map<string, seq<string>>)
    | AnyMap(fields: map<string, Value>)
    | TextMap(texts: map<string, string>)
    | TextListMap(lists: map<string, seq<string>>)
    | AnyList(items: seq<Value>)
    | TextList(lines: seq<string>)
    | Pointer(target: Value)
    | TypedMap(fields: map<string, Value>)
    | TypedList(items: seq<Value>)
    | Opaque(parts: seq<Value>)

  /** The two key tests that redaction consults. */
  datatype Policy = Policy(sensitive: string -> bool, query: string -> bool)

  /** A credential field name is also a credential query parameter. */
  ghost predicate Consistent(p: Policy) {
    forall k :: p.sensitive(k) ==> p.query(k)
  }

  function StandardPolicy(u: Unicode): Policy {
    Policy(k => IsSensitiveKey(u, k), k => IsSensitiveQueryKey(u, k))
  }

  lemma StandardPolicyIsConsistent(u: Unicode)
    ensures Consistent(StandardPolicy(u))
  {
    forall k | StandardPolicy(u).sensitive(k) ensures StandardPolicy(u).query(k) {
      assert IsSensitiveKey(u, k);
    }
  }

  // ------------------------------------------------------------ what redaction returns

  /** The first value per header; a header without values is dropped unless it is sensitive. */
  function HeadersSpec(p: Policy, h: map<string, seq<string>>): map<string, string> {
    map k | k in h && (p.sensitive(k) || h[k] != []) :: if p.sensitive(k) then PLACEHOLDER else h[k][0]
  }

  function QuerySpec(p: Policy, q: map<string, seq<string>>): map<string, string> {
    map k | k in q && (p.query(k) || q[k] != []) :: if p.query(k) then PLACEHOLDER else q[k][0]
  }

  function TextMapSpec(p: Policy, m: map<string, string>): map<string, string> {
    map k | k in m :: if p.sensitive(k) then PLACEHOLDER else m[k]
  }

  function TextListMapSpec(p: Policy, m: map<string, seq<string>>): map<string, seq<string>> {
    map k | k in m :: if p.sensitive(k) then [PLACEHOLDER] else m[k]
  }

  function MapSpec(p: Policy, m: map<string, Value>, depth: nat): map<string, Value>
    requires depth < MAX_DEPTH
    decreases MAX_DEPTH - depth, 0
  {
    map k | k in m :: if p.sensitive(k) then Text(PLACEHOLDER) else Redacted(p, m[k], depth + 1)
  }

  function ListSpec(p: Policy, s: seq<Value>, depth: nat): (r: seq<Value>)
    requires depth < MAX_DEPTH
    ensures |r| == |s| && forall i :: 0 <= i < |s| ==> r[i] == Redacted(p, s[i], depth + 1)
    decreases MAX_DEPTH - depth, 0
  {
    seq(|s|, i requires 0 <= i < |s| => Redacted(p, s[i], depth + 1))
  }

  function Redacted(p: Policy, v: Value, depth: nat): Value
    decreases MAX_DEPTH - depth, 1
  {
    if depth >= MAX_DEPTH then Text(PLACEHOLDER)
    else
      match v
      case Header(h) => TextMap(HeadersSpec(p, h))
      case QueryValues(q) => TextMap(QuerySpec(p, q))
      case AnyMap(m) => AnyMap(MapSpec(p, m, depth))
      case TypedMap(m) => AnyMap(MapSpec(p, m, depth))
      case TextMap(m) => TextMap(TextMapSpec(p, m))
      case TextListMap(m) => TextListMap(TextListMapSpec(p, m))
      case AnyList(s) => AnyList(ListSpec(p, s, depth))
      case TypedList(s) => AnyList(ListSpec(p, s, depth))
      case Pointer(target) => Redacted(p, target, depth + 1)
      case _ => v
  }

  // ------------------------------------------------------------ laws

  /** Redacting a redacted value, at the same depth or nearer the root, changes nothing. */
  lemma {:induction false} RedactionIsIdempotent(p: Policy, v: Value, depth: nat, again: nat)
    requires again <= depth && Consistent(p)
    ensures Redacted(p, Redacted(p, v, depth), again) == Redacted(p, v, depth)
    decreases MAX_DEPTH - depth
  {
    if depth < MAX_DEPTH {
      match v
      case AnyMap(m) => MapIsIdempotent(p, m, depth, again);
      case TypedMap(m) => MapIsIdempotent(p, m, depth, again);
      case AnyList(s) => ListIsIdempotent(p, s, depth, again);
      case TypedList(s) => ListIsIdempotent(p, s, depth, again);
      case Pointer(target) => RedactionIsIdempotent(p, target, depth + 1, again);
      case _ =>
    }
  }

  lemma {:induction false} MapIsIdempotent(p: Policy, m: map<string, Value>, depth: nat, again: nat)
    requires again <= depth < MAX_DEPTH && Consistent(p)
    ensures MapSpec(p, MapSpec(p, m, depth), again) == MapSpec(p, m, depth)
    decreases MAX_DEPTH - depth, 0
  {
    forall k | k in m && !p.sensitive(k)
      ensures Redacted(p, Redacted(p, m[k], depth + 1), again + 1) == Redacted(p, m[k], depth + 1)
    {
      RedactionIsIdempotent(p, m[k], depth + 1, again + 1);
    }
  }

  lemma {:induction false} ListIsIdempotent(p: Policy, s: seq<Value>, depth: nat, again: nat)
    requires again <= depth < MAX_DEPTH && Consistent(p)
    ensures ListSpec(p, ListSpec(p, s, depth), again) == ListSpec(p, s, depth)
    decreases MAX_DEPTH - depth, 0
  {
    forall i | 0 <= i < |s|
      ensures Redacted(p, Redacted(p, s[i], depth + 1), again + 1) == Redacted(p, s[i], depth + 1)
    {
      RedactionIsIdempotent(p, s[i], depth + 1, again + 1);
    }
  }

  /** No sensitive key, at any depth, with a value other than the placeholder. */
  predicate Clean(p: Policy, v: Value)
    decreases v
  {
    match v
    case AnyMap(m) => forall k :: k in m ==> Clean(p, m[k]) && (p.sensitive(k) ==> m[k] == Text(PLACEHOLDER))
    case TypedMap(m) => forall k :: k in m ==> Clean(p, m[k]) && (p.sensitive(k) ==> m[k] == Text(PLACEHOLDER))
    case TextMap(m) => forall k :: k in m && p.sensitive(k) ==> m[k] == PLACEHOLDER
    case TextListMap(m) => forall k :: k in m && p.sensitive(k) ==> m[k] == [PLACEHOLDER]
    case Header(m) => forall k :: k in m && p.sensitive(k) ==> m[k] == [PLACEHOLDER]
    case QueryValues(m) => forall k :: k in m && p.sensitive(k) ==> m[k] == [PLACEHOLDER]
    case AnyList(s) => forall i :: 0 <= i < |s| ==> Clean(p, s[i])
    case TypedList(s) => forall i :: 0 <= i < |s| ==> Clean(p, s[i])
    case Opaque(s) => forall i :: 0 <= i < |s| ==> Clean(p, s[i])
    case Pointer(target) => Clean(p, target)
    case _ => true
  }

  /** Every opaque value that the redactor reaches, above the depth bound and not under a redacted key, is clean. */
  predicate OpaquesClean(p: Policy, v: Value, depth: nat)
    decreases v
  {
    depth >= MAX_DEPTH ||
    match v
    case AnyMap(m) => forall k :: k in m && !p.sensitive(k) ==> OpaquesClean(p, m[k], depth + 1)
    case TypedMap(m) => forall k :: k in m && !p.sensitive(k) ==> OpaquesClean(p, m[k], depth + 1)
    case AnyList(s) => forall i :: 0 <= i < |s| ==> OpaquesClean(p, s[i], depth + 1)
    case TypedList(s) => forall i :: 0 <= i < |s| ==> OpaquesClean(p, s[i], depth + 1)
    case Pointer(target) => OpaquesClean(p, target, depth + 1)
    case Opaque(_) => Clean(p, v)
    case _ => true
  }

  /** The redacted value is clean exactly when the opaque values passed through are. */
  lemma {:induction false} RedactedIsClean(p: Policy, v: Value, depth: nat)
    requires Consistent(p)
    ensures Clean(p, Redacted(p, v, depth)) <==> OpaquesClean(p, v, depth)
    decreases MAX_DEPTH - depth
  {
    if depth < MAX_DEPTH {
      match v
      case AnyMap(m) => MapIsClean(p, m, depth);
      case TypedMap(m) => MapIsClean(p, m, depth);
      case AnyList(s) => ListIsClean(p, s, depth);
      case TypedList(s) => ListIsClean(p, s, depth);
      case Pointer(target) => RedactedIsClean(p, target, depth + 1);
      case _ =>
    }
  }

  lemma {:induction false} MapIsClean(p: Policy, m: map<string, Value>, depth: nat)
    requires depth < MAX_DEPTH && Consistent(p)
    ensures Clean(p, AnyMap(MapSpec(p, m, depth))) <==>
            forall k :: k in m && !p.sensitive(k) ==> OpaquesClean(p, m[k], depth + 1)
    decreases MAX_DEPTH - depth, 0
  {
    var r := MapSpec(p, m, depth);
    forall k | k in m && !p.sensitive(k) ensures Clean(p, r[k]) <==> OpaquesClean(p, m[k], depth + 1) {
      RedactedIsClean(p, m[k], depth + 1);
    }
    forall k | k in m && p.sensitive(k) ensures r[k] == Text(PLACEHOLDER) && Clean(p, r[k]) {
    }
  }

  lemma {:induction false} ListIsClean(p: Policy, s: seq<Value>, depth: nat)
    requires depth < MAX_DEPTH && Consistent(p)
    ensures Clean(p, AnyList(ListSpec(p, s, depth))) <==> forall i :: 0 <= i < |s| ==> OpaquesClean(p, s[i], depth + 1)
    decreases MAX_DEPTH - depth, 0
  {
    var r := ListSpec(p, s, depth);
    forall i | 0 <= i < |s| ensures Clean(p, r[i]) <==> OpaquesClean(p, s[i], depth + 1) {
      RedactedIsClean(p, s[i], depth + 1);
    }
  }

  // ------------------------------------------------------------ what stands where

  /** One step down a value: to a field, to an item, or through a pointer. */
  datatype PathStep = Field(key: string) | Item(index: nat) | Deref

  function Below(v: Value, step: PathStep): Option<Value> {
    match step
    case Field(k) =>
      (match v
       case AnyMap(m) => if k in m then Some(m[k]) else None
       case TypedMap(m) => if k in m then Some(m[k]) else None
       case TextMap(m) => if k in m then Some(Text(m[k])) else None
       case TextListMap(m) => if k in m then Some(TextList(m[k])) else None
       case _ => None)
    case Item(i) =>
      (match v
       case AnyList(s) => if i < |s| then Some(s[i]) else None
       case TypedList(s) => if i < |s| then Some(s[i]) else None
       case _ => None)
    case Deref => if v.Pointer? then Some(v.target) else None
  }

  function At(v: Value, path: seq<PathStep>): Option<Value>
    decreases |path|
  {
    if path == [] then Some(v)
    else
      var w := Below(v, path[0]);
      if w.None? then None else At(w.value, path[1..])
  }

  /** The way to the same place in the copy, which has no pointers. */
  function InCopy(path: seq<PathStep>): seq<PathStep> {
    if path == [] then []
    else (if path[0].Deref? then [] else [path[0]]) + InCopy(path[1..])
  }

  /** Maps of texts, whose entries are copied without looking at the depth. */
  predicate Texts(v: Value) {
    v.TextMap? || v.TextListMap?
  }

  /** How many levels of the redactor lie on the path. */
  function Levels(v: Value, path: seq<PathStep>): nat
    decreases |path|
  {
    if path == [] || Below(v, path[0]).None? || Texts(v) then 0 else 1 + Levels(Below(v, path[0]).value, path[1..])
  }

  predicate AvoidsSensitive(p: Policy, path: seq<PathStep>) {
    forall i :: 0 <= i < |path| && path[i].Field? ==> !p.sensitive(path[i].key)
  }

  /** Values that hold no further places. */
  predicate Plain(v: Value) {
    v.Nil? || v.NilPointer? || v.Text? || v.Scalar? || v.TextList? || v.Opaque?
  }

  /** One step in the original and in its redacted copy, away from sensitive fields. */
  lemma CopyStep(p: Policy, v: Value, step: PathStep, depth: nat)
    requires depth < MAX_DEPTH && Below(v, step).Some? && (step.Field? ==> !p.sensitive(step.key))
    ensures var r, w := Redacted(p, v, depth), Below(v, step).value;
      if step.Deref? then r == Redacted(p, w, depth + 1)
      else Below(r, step) == Some(if Texts(v) then w else Redacted(p, w, depth + 1))
  {
  }

  lemma AtFirst(v: Value, step: PathStep, rest: seq<PathStep>)
    ensures At(v, [step] + rest) == if Below(v, step).None? then None else At(Below(v, step).value, rest)
  {
    assert ([step] + rest)[1..] == rest;
  }

  lemma NothingBelow(v: Value, path: seq<PathStep>)
    requires Plain(v) && At(v, path).Some?
    ensures path == []
  {
  }

  /** Away from sensitive fields every plain value above the depth bound of eight comes through unchanged. */
  lemma {:induction false} KeptInPlace(p: Policy, v: Value, path: seq<PathStep>, depth: nat, w: Value)
    requires w.Nil? || w.NilPointer? || w.Text? || w.Scalar? || w.TextList? || w.Opaque?
    requires At(v, path) == Some(w) && AvoidsSensitive(p, path) && depth + Levels(v, path) < 8
    ensures At(Redacted(p, v, depth), InCopy(path)) == Some(w)
    decreases |path|
  {
    assert Plain(w);
    if path != [] {
      hide Redacted, Below, Plain;
      var step, rest, next := path[0], path[1..], Below(v, path[0]).value;
      CopyStep(p, v, step, depth);
      if Texts(v) {
        TextsArePlain(v, step);
        NothingBelow(next, rest);
      } else {
        KeptInPlace(p, next, rest, depth + 1, w);
      }
      AtFirst(Redacted(p, v, depth), step, InCopy(rest));
      assert InCopy(path) == if step.Deref? then InCopy(rest) else [step] + InCopy(rest);
    } else {
      PlainIsKept(p, v, depth);
    }
  }

  lemma TextsArePlain(v: Value, step: PathStep)
    requires Texts(v) && Below(v, step).Some?
    ensures Plain(Below(v, step).value) && step.Field?
  {
  }

  lemma PlainIsKept(p: Policy, v: Value, depth: nat)
    requires depth < 8 && Plain(v)
    ensures Redacted(p, v, depth) == v
  {
  }

  /** A sensitive field above that bound holds the placeholder, whatever it held. */
  lemma {:induction false} ReplacedInPlace(p: Policy, v: Value, path: seq<PathStep>, key: string, depth: nat)
    requires At(v, path + [Field(key)]).Some? && AvoidsSensitive(p, path) && p.sensitive(key)
    requires depth + Levels(v, path) < 8
    ensures At(Redacted(p, v, depth), InCopy(path) + [Field(key)]) in {
      Some(Text("[REDACTED]")), Some(TextList(["[REDACTED]"]))}
    decreases |path|
  {
    var whole := path + [Field(key)];
    if path != [] {
      hide Redacted, Below, Plain;
      var step, rest, next := path[0], path[1..], Below(v, path[0]).value;
      assert whole[0] == step && whole[1..] == rest + [Field(key)];
      CopyStep(p, v, step, depth);
      if Texts(v) {
        TextsArePlain(v, step);
        NothingBelow(next, rest + [Field(key)]);
      } else {
        ReplacedInPlace(p, next, rest, key, depth + 1);
      }
      AtFirst(Redacted(p, v, depth), step, InCopy(rest) + [Field(key)]);
      assert InCopy(path) == if step.Deref? then InCopy(rest) else [step] + InCopy(rest);
      assert [step] + InCopy(rest) + [Field(key)] == [step] + (InCopy(rest) + [Field(key)]);
    } else {
      assert whole[1..] == [];
      assert InCopy(path) + [Field(key)] == [Field(key)];
      FieldIsReplaced(p, v, key, depth);
    }
  }

  /** What becomes of one header or query parameter. */
  predicate FirstOrPlaceholder(p: Policy, w: Value, copy: Value, key: string)
    requires w.Header? || w.QueryValues?
  {
    var values := if w.Header? then w.header else w.query;
    var sensitive := if w.Header? then p.sensitive(key) else p.query(key);
    && copy.TextMap?
    && (key in copy.texts <==> key in values && (sensitive || values[key] != []))
    && (key in copy.texts ==> copy.texts[key] == if sensitive then "[REDACTED]" else values[key][0])
  }

  lemma ParametersCopied(p: Policy, w: Value, depth: nat, key: string)
    requires depth < 8 && (w.Header? || w.QueryValues?)
    ensures FirstOrPlaceholder(p, w, Redacted(p, w, depth), key)
  {
  }

  lemma {:induction false} ParameterCopiedInPlace(p: Policy, v: Value, path: seq<PathStep>, depth: nat, w: Value,
                                                  key: string)
    requires At(v, path) == Some(w) && (w.Header? || w.QueryValues?)
    requires AvoidsSensitive(p, path) && depth + Levels(v, path) < 8
    ensures At(Redacted(p, v, depth), InCopy(path)).Some?
    ensures FirstOrPlaceholder(p, w, At(Redacted(p, v, depth), InCopy(path)).value, key)
    decreases |path|
  {
    hide Redacted, Below, FirstOrPlaceholder;
    if path != [] {
      var step, rest, next := path[0], path[1..], Below(v, path[0]).value;
      CopyStep(p, v, step, depth);
      if Texts(v) {
        TextsArePlain(v, step);
        NothingBelow(next, rest);
      } else {
        ParameterCopiedInPlace(p, next, rest, depth + 1, w, key);
      }
      AtFirst(Redacted(p, v, depth), step, InCopy(rest));
      assert InCopy(path) == if step.Deref? then InCopy(rest) else [step] + InCopy(rest);
    } else {
      ParametersCopied(p, w, depth, key);
    }
  }

  /** Headers and query values inside a tree become maps of first values and placeholders. */
  lemma ParametersInPlace(p: Policy, v: Value, path: seq<PathStep>, depth: nat, w: Value, key: string)
    requires At(v, path) == Some(w) && AvoidsSensitive(p, path) && depth + Levels(v, path) < 8
    ensures w.Header? || w.QueryValues? ==>
      var copy := At(Redacted(p, v, depth), InCopy(path));
      copy.Some? && copy.value.TextMap?
    ensures w.Header? ==>
      var texts := At(Redacted(p, v, depth), InCopy(path)).value.texts;
      if key in w.header && p.sensitive(key) then key in texts && texts[key] == "[REDACTED]"
      else if key in w.header && w.header[key] != [] then key in texts && texts[key] == w.header[key][0]
      else key !in texts
    ensures w.QueryValues? ==>
      var texts := At(Redacted(p, v, depth), InCopy(path)).value.texts;
      if key in w.query && p.query(key) then key in texts && texts[key] == "[REDACTED]"
      else if key in w.query && w.query[key] != [] then key in texts && texts[key] == w.query[key][0]
      else key !in texts
  {
    hide Redacted, At, InCopy, Levels;
    if w.Header? || w.QueryValues? {
      ParameterCopiedInPlace(p, v, path, depth, w, key);
    }
  }

  lemma FieldIsReplaced(p: Policy, v: Value, key: string, depth: nat)
    requires depth < 8 && Below(v, Field(key)).Some? && p.sensitive(key)
    ensures At(Redacted(p, v, depth), [Field(key)]) in {Some(Text("[REDACTED]")), Some(TextList(["[REDACTED]"]))}
  {
    assert [Field(key)][1..] == [];
  }

  /** At the bound everything is replaced. */
  lemma {:induction false} CutOffInPlace(p: Policy, v: Value, path: seq<PathStep>, depth: nat)
    requires At(v, path).Some? && AvoidsSensitive(p, path) && depth + Levels(v, path) == 8 && Levels(v, path) == |path|
    ensures At(Redacted(p, v, depth), InCopy(path)) == Some(Text("[REDACTED]"))
    decreases |path|
  {
    if path != [] {
      hide Redacted, Below, Plain;
      var step, rest, next := path[0], path[1..], Below(v, path[0]).value;
      CopyStep(p, v, step, depth);
      CutOffInPlace(p, next, rest, depth + 1);
      AtFirst(Redacted(p, v, depth), step, InCopy(rest));
      assert InCopy(path) == if step.Deref? then InCopy(rest) else [step] + InCopy(rest);
    } else {
      EverythingIsCutOff(p, v);
    }
  }

  lemma EverythingIsCutOff(p: Policy, v: Value)
    ensures Redacted(p, v, 8) == Text("[REDACTED]")
  {
  }

  /** Values without opaque parts. */
  predicate Supported(v: Value)
    decreases v
  {
    match v
    case AnyMap(m) => forall k :: k in m ==> Supported(m[k])
    case TypedMap(m) => forall k :: k in m ==> Supported(m[k])
    case AnyList(s) => forall i :: 0 <= i < |s| ==> Supported(s[i])
    case TypedList(s) => forall i :: 0 <= i < |s| ==> Supported(s[i])
    case Pointer(target) => Supported(target)
    case Opaque(_) => false
    case _ => true
  }

  lemma {:induction false} SupportedMeansOpaquesClean(p: Policy, v: Value, depth: nat)
    requires Supported(v)
    ensures OpaquesClean(p, v, depth)
    decreases v
  {
    match v
    case AnyMap(m) =>
      forall k | k in m && !p.sensitive(k) ensures OpaquesClean(p, m[k], depth + 1) {
        SupportedMeansOpaquesClean(p, m[k], depth + 1);
      }
    case TypedMap(m) =>
      forall k | k in m && !p.sensitive(k) ensures OpaquesClean(p, m[k], depth + 1) {
        SupportedMeansOpaquesClean(p, m[k], depth + 1);
      }
    case AnyList(s) =>
      forall i | 0 <= i < |s| ensures OpaquesClean(p, s[i], depth + 1) {
        SupportedMeansOpaquesClean(p, s[i], depth + 1);
      }
    case TypedList(s) =>
      forall i | 0 <= i < |s| ensures OpaquesClean(p, s[i], depth + 1) {
        SupportedMeansOpaquesClean(p, s[i], depth + 1);
      }
    case Pointer(target) => SupportedMeansOpaquesClean(p, target, depth + 1);
    case _ =>
  }

  /** Maps, slices and pointers of any shape come out with every credential key redacted. */
  lemma SupportedValuesComeOutClean(u: Unicode, v: Value)
    requires Supported(v)
    ensures Clean(StandardPolicy(u), Redacted(StandardPolicy(u), v, 0))
  {
    StandardPolicyIsConsistent(u);
    SupportedMeansOpaquesClean(StandardPolicy(u), v, 0);
    RedactedIsClean(StandardPolicy(u), v, 0);
  }

  lemma OpaqueFieldLeaks(p: Policy, key: string, secret: string)
    requires p.sensitive(key) && secret != PLACEHOLDER
    ensures var v := Opaque([AnyMap(map[key := Text(secret)])]);
      Redacted(p, v, 0) == v && !Clean(p, v)
  {
    var inner := AnyMap(map[key := Text(secret)]);
    assert key in inner.fields && inner.fields[key] != Text(PLACEHOLDER);
    assert !Clean(p, inner) && [inner][0] == inner;
  }

  /** A password inside an opaque value, such as a field of a struct, comes through as it is. */
  lemma OpaqueValuesLeak(u: Unicode, secret: string)
    requires KnowsAscii(u) && secret != PLACEHOLDER
    ensures var v := Opaque([AnyMap(map["password" := Text(secret)])]);
      Redacted(StandardPolicy(u), v, 0) == v && !Clean(StandardPolicy(u), v)
  {
    hide IsSensitiveKey, IsSensitiveQueryKey, Redacted, Clean;
    PasswordIsSensitive(u);
    OpaqueFieldLeaks(StandardPolicy(u), "password", secret);
  }

  // ------------------------------------------------------------ the loops

  /** Map: nil for an empty map. */
  method Map(p: Policy, values: map<string, Value>) returns (result: Option<map<string, Value>>)
    ensures result == if |values| == 0 then None else Some(MapSpec(p, values, 0))
  {
    if |values| == 0 {
      return None;
    }
    var m := MapValue(p, values, 0);
    return Some(m);
  }

  method MapValue(p: Policy, values: map<string, Value>, depth: nat) returns (result: map<string, Value>)
    requires depth < MAX_DEPTH
    ensures result == MapSpec(p, values, depth)
    decreases MAX_DEPTH - depth, 0
  {
    result := map[];
    var todo := values.Keys;
    while todo != {}
      invariant todo <= values.Keys && result.Keys == values.Keys - todo
      invariant forall k :: k in result ==> result[k] == MapSpec(p, values, depth)[k]
    {
      var key :| key in todo;
      if p.sensitive(key) {
        result := result[key := Text(PLACEHOLDER)];
      } else {
        var value := RedactValue(p, values[key], depth + 1);
        result := result[key := value];
      }
      todo := todo - {key};
    }
  }

  method RedactList(p: Policy, items: seq<Value>, depth: nat) returns (result: seq<Value>)
    requires depth < MAX_DEPTH
    ensures result == ListSpec(p, items, depth)
    decreases MAX_DEPTH - depth, 0
  {
    result := [];
    for index := 0 to |items|
      invariant |result| == index && forall i :: 0 <= i < index ==> result[i] == ListSpec(p, items, depth)[i]
    {
      var item := RedactValue(p, items[index], depth + 1);
      result := result + [item];
    }
  }

  method Headers(p: Policy, headers: map<string, seq<string>>) returns (result: map<string, string>)
    ensures result == HeadersSpec(p, headers)
    ensures forall k :: k in result <==> k in headers && (p.sensitive(k) || headers[k] != [])
    ensures forall k :: k in result ==> result[k] == if p.sensitive(k) then "[REDACTED]" else headers[k][0]
  {
    result := map[];
    var todo := headers.Keys;
    while todo != {}
      invariant todo <= headers.Keys && result == HeadersSpec(p, headers - todo)
    {
      var key :| key in todo;
      if p.sensitive(key) {
        result := result[key := PLACEHOLDER];
      } else if headers[key] != [] {
        result := result[key := headers[key][0]];
      }
      todo := todo - {key};
    }
    assert headers - {} == headers;
  }

  method Query(p: Policy, values: map<string, seq<string>>) returns (result: map<string, string>)
    ensures result == QuerySpec(p, values)
    ensures forall k :: k in result <==> k in values && (p.query(k) || values[k] != [])
    ensures forall k :: k in result ==> result[k] == if p.query(k) then "[REDACTED]" else values[k][0]
  {
    result := map[];
    var todo := values.Keys;
    while todo != {}
      invariant todo <= values.Keys && result == QuerySpec(p, values - todo)
    {
      var key :| key in todo;
      if p.query(key) {
        result := result[key := PLACEHOLDER];
      } else if values[key] != [] {
        result := result[key := values[key][0]];
      }
      todo := todo - {key};
    }
    assert values - {} == values;
  }

  method RedactTexts(p: Policy, texts: map<string, string>) returns (result: map<string, string>)
    ensures result == TextMapSpec(p, texts)
  {
    result := map[];
    var todo := texts.Keys;
    while todo != {}
      invariant todo <= texts.Keys && result == TextMapSpec(p, texts - todo)
    {
      var key :| key in todo;
      result := result[key := if p.sensitive(key) then PLACEHOLDER else texts[key]];
      todo := todo - {key};
    }
    assert texts - {} == texts;
  }

  method RedactTextLists(p: Policy, lists: map<string, seq<string>>) returns (result: map<string, seq<string>>)
    ensures result == TextListMapSpec(p, lists)
  {
    result := map[];
    var todo := lists.Keys;
    while todo != {}
      invariant todo <= lists.Keys && result == TextListMapSpec(p, lists - todo)
    {
      var key :| key in todo;
      result := result[key := if p.sensitive(key) then [PLACEHOLDER] else lists[key]];
      todo := todo - {key};
    }
    assert lists - {} == lists;
  }

  method RedactValue(p: Policy, value: Value, depth: nat) returns (result: Value)
    ensures result == Redacted(p, value, depth)
    decreases MAX_DEPTH - depth, 1
  {
    if depth >= MAX_DEPTH {
      return Text(PLACEHOLDER);
    }
    match value
    case Header(h) =>
      var m := Headers(p, h);
      return TextMap(m);
    case QueryValues(q) =>
      var m := Query(p, q);
      return TextMap(m);
    case AnyMap(fields) =>
      var m := MapValue(p, fields, depth);
      return AnyMap(m);
    case TypedMap(fields) =>
      var m := MapValue(p, fields, depth);
      return AnyMap(m);
    case TextMap(texts) =>
      var m := RedactTexts(p, texts);
      return TextMap(m);
    case TextListMap(lists) =>
      var m := RedactTextLists(p, lists);
      return TextListMap(m);
    case AnyList(items) =>
      var s := RedactList(p, items, depth);
      return AnyList(s);
    case TypedList(items) =>
      var s := RedactList(p, items, depth);
      return AnyList(s);
    case Pointer(target) =>
      result := RedactValue(p, target, depth + 1);
    case _ => return value;
  }
}
