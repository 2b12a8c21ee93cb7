/** Inference of an EIP-712 type schema from JSON messages (ethereum/eip712/types.go). */
module Eip712Types {
  import opened Common
  import opened Numerals
  import opened TypeNames

  const MAX_DUPLICATES: nat := 1000

  /** A parsed JSON value; an object maps each field name to its value. */
  datatype Json =
    | Null
    | Bool
    | Number
    | Text(text: string)
    | Array(items: seq<Json>)
    | Object(fields: map<string, Json>)

  datatype FieldType = FieldType(name: string, typ: string)

  type TypeDef = seq<FieldType>

  type Types = map<string, TypeDef>

  // --- One field ---

  /** getEthTypeForJSON: empty for objects, arrays and null. */
  function EthType(j: Json): string {
    match j
    case Bool => "bool"
    case Number => "int64"
    case Text(_) => "string"
    case _ => ""
  }

  predicate IsCollection(j: Json) { j.Array? && j.items != [] }

  /** A non-empty array is typed by its first element. */
  function Element(j: Json): Json { if IsCollection(j) then j.items[0] else j }

  function Suffix(j: Json): string { if IsCollection(j) then "[]" else "" }

  /** The type of a field that needs no definition of its own. */
  function BasicType(j: Json): Option<string> {
    if j.Array? && j.items == [] then Some("string[]")
    else if EthType(Element(j)) != "" then Some(EthType(Element(j)) + Suffix(j))
    else None
  }

  /** Null fields and nested arrays get no type. */
  predicate IsTyped(j: Json) { BasicType(j).Some? || Element(j).Object? }

  // --- Field order ---

  /** The strictly descending listing of a set of names. */
  function Descending(names: set<string>): (r: seq<string>)
    ensures forall n :: n in r <==> n in names
    decreases |names|
  {
    if names == {} then [] else [Greatest(names)] + Descending(names - {Greatest(names)})
  }

  predicate IsDescending(names: seq<string>) {
    forall i, j :: 0 <= i < j < |names| ==> LexLess(names[j], names[i])
  }

  lemma {:induction false} DescendingDescends(names: set<string>)
    ensures IsDescending(Descending(names))
    decreases |names|
  {
    if names != {} {
      var top := Greatest(names);
      var rest := Descending(names - {top});
      DescendingDescends(names - {top});
      forall j | 0 <= j < |rest| ensures LexLess(rest[j], top) {
        assert rest[j] in rest;
        assert IsGreatest(names, top);
      }
    }
  }

  /** A descending listing is determined by its set: the order of the fields in the message cannot matter. */
  lemma {:induction false} DescendingIsUnique(a: seq<string>, names: set<string>)
    requires IsDescending(a) && forall n :: n in a <==> n in names
    ensures a == Descending(names)
    decreases |names|
  {
    if a == [] {
      assert names == {};
    } else {
      var top := a[0];
      assert top in a && top in names;
      assert IsGreatest(names, top) by {
        forall x | x in names ensures x == top || LexLess(x, top) {
          assert x in a;
          var i :| 0 <= i < |a| && a[i] == x;
        }
      }
      GreatestIsUnique(names, top, Greatest(names));
      var rest := a[1..];
      forall n ensures n in rest <==> n in names - {top} {
        if n in rest { var i :| 0 <= i < |rest| && rest[i] == n; assert a[i + 1] == n; LexTrichotomy(n, n); }
        if n in names - {top} { assert n in a; var i :| 0 <= i < |a| && a[i] == n; assert rest[i - 1] == n; }
      }
      DescendingIsUnique(rest, names - {top});
      assert a == [top] + rest;
    }
  }

  // --- Inference ---

  /** No definition of a is lost or changed in b. */
  ghost predicate Extends(a: Types, b: Types) {
    forall k | k in a :: k in b && b[k] == a[k]
  }

  /** The first index, from i on, at which the name is free or already holds this definition. */
  function Probe(types: Types, typeDef: string, def: TypeDef, i: nat): (r: Option<nat>)
    ensures r.Some? && WithIndex(typeDef, r.value) in types ==> types[WithIndex(typeDef, r.value)] == def
    decreases MAX_DUPLICATES - i
  {
    if i >= MAX_DUPLICATES then None
    else
      var key := WithIndex(typeDef, i);
      if key in types && types[key] != def then Probe(types, typeDef, def, i + 1) else Some(i)
  }

  /** What inference leaves behind: the type map, and the key of the definition unless it failed. */
  datatype Inferred = Inferred(types: Types, key: Option<string>)

  datatype Listed = Listed(types: Types, def: Option<TypeDef>)

  /** addTypesToRoot as a function of the map. */
  function AddTypes(types: Types, typeDef: string, def: TypeDef): (r: Inferred)
    ensures Extends(types, r.types)
  {
    match Probe(types, typeDef, def, 0)
    case None => Inferred(types, None)
    case Some(i) => Inferred(types[WithIndex(typeDef, i) := def], Some(WithIndex(typeDef, i)))
  }

  /** typeDefForPrefix, with "_" as the root prefix. */
  function TypeDefFor(prefix: string, rootType: string): string {
    if prefix == "_" then rootType else Sanitize(prefix)
  }

  function Infer(types: Types, rootType: string, prefix: string, json: Json): (r: Inferred)
    requires json.Object?
    ensures Extends(types, r.types)
    decreases json
  {
    var listed := InferFields(types, rootType, prefix, json, Descending(json.fields.Keys));
    match listed.def
    case None => Inferred(listed.types, None)
    case Some(def) => AddTypes(listed.types, TypeDefFor(prefix, rootType), def)
  }

  function InferFields(types: Types, rootType: string, prefix: string, json: Json, names: seq<string>): (r: Listed)
    requires json.Object? && forall n :: n in names ==> n in json.fields
    ensures Extends(types, r.types)
    decreases json, |names|
  {
    if names == [] then Listed(types, Some([]))
    else
      var n := |names| - 1;
      var before := InferFields(types, rootType, prefix, json, names[..n]);
      if before.def.None? then before
      else InferField(before.types, rootType, prefix, json, names[n], before.def.value)
  }

  /** The definition def grows by the field, if the field has a type. */
  function InferField(types: Types, rootType: string, prefix: string, json: Json, name: string,
                      def: TypeDef): (r: Listed)
    requires json.Object? && name in json.fields
    ensures Extends(types, r.types)
    decreases json, 0
  {
    var value := json.fields[name];
    if BasicType(value).Some? then Listed(types, Some(def + [FieldType(name, BasicType(value).value)]))
    else if Element(value).Object? then
      var sub := Infer(types, rootType, SubPrefix(prefix, name), Element(value));
      if sub.key.None? then Listed(sub.types, None)
      else Listed(sub.types, Some(def + [FieldType(name, Sanitize(sub.key.value) + Suffix(value))]))
    else Listed(types, Some(def))
  }

  // --- What the inferred map means ---

  /** The same for the inferred definitions, which all have an indexed name. */
  ghost predicate KeepsInferred(a: Types, b: Types) {
    forall k | k in a && EndsInDigit(k) :: k in b && b[k] == a[k]
  }

  predicate IsPrimitive(t: string) { t == "string" || t == "bool" || t == "int64" || t == "uint256" }

  predicate IsArrayType(t: string) { |t| >= 2 && t[|t| - 2] == '[' && t[|t| - 1] == ']' }

  function BaseType(t: string): string { if IsArrayType(t) then t[..|t| - 2] else t }

  /** The named type, stripped of an array suffix, is primitive or defined. */
  ghost predicate Refers(types: Types, t: string) {
    IsPrimitive(BaseType(t)) || BaseType(t) in types
  }

  ghost predicate DefRefers(types: Types, def: TypeDef) {
    forall i :: 0 <= i < |def| ==> Refers(types, def[i].typ)
  }

  ghost predicate Closed(types: Types) {
    forall k | k in types :: DefRefers(types, types[k])
  }

  /**
   * The object's typed fields, in descending order, are exactly those of the definition at key. An array
   * is judged by its first element, as inference does.
   */
  ghost predicate Conforms(types: Types, key: string, json: Json)
    decreases json, 0
  {
    && json.Object? && EndsInDigit(key) && key in types
    && DescendingFields(types[key])
    && Covers(types[key], json, json.fields.Keys)
    && (forall i :: 0 <= i < |types[key]| ==>
          types[key][i].name in json.fields && HasType(types, json.fields[types[key][i].name], types[key][i].typ))
  }

  ghost predicate HasType(types: Types, value: Json, typ: string)
    decreases value, 2
  {
    if value.Array? && value.items == [] then typ == "string[]"
    else if value.Array? then IsArrayType(typ) && ElementHasType(types, value.items[0], BaseType(typ))
    else ElementHasType(types, value, typ)
  }

  ghost predicate ElementHasType(types: Types, e: Json, typ: string)
    decreases e, 1
  {
    match e
    case Bool => typ == "bool"
    case Number => typ == "int64"
    case Text(_) => typ == "string"
    case Object(_) => Conforms(types, typ, e)
    case _ => false
  }

  ghost predicate DescendingFields(def: TypeDef) {
    forall i, j :: 0 <= i < j < |def| ==> LexLess(def[j].name, def[i].name)
  }

  ghost predicate Lists(def: TypeDef, name: string) { exists i :: 0 <= i < |def| && def[i].name == name }

  ghost predicate Covers(def: TypeDef, json: Json, names: set<string>)
    requires json.Object?
  {
    forall name | name in names && name in json.fields && IsTyped(json.fields[name]) :: Lists(def, name)
  }

  // --- Adding one definition ---

  /** Every probed name below the found index is taken by another definition; on failure all names are. */
  lemma {:induction false} ProbeIsLeast(types: Types, typeDef: string, def: TypeDef, i: nat)
    ensures var r := Probe(types, typeDef, def, i);
            var end := if r.Some? then r.value else MAX_DUPLICATES;
            && (r.Some? ==> i <= end < MAX_DUPLICATES)
            && (r.Some? && WithIndex(typeDef, end) in types ==> types[WithIndex(typeDef, end)] == def)
            && forall j {:trigger WithIndex(typeDef, j)} :: i <= j < end ==>
                 WithIndex(typeDef, j) in types && types[WithIndex(typeDef, j)] != def
    decreases MAX_DUPLICATES - i
  {
    if i < MAX_DUPLICATES { ProbeIsLeast(types, typeDef, def, i + 1); }
  }

  /**
   * Adding fails iff all thousand names hold other definitions; otherwise the key holds def and nothing
   * else changed.
   */
  lemma AddTypesMeans(types: Types, typeDef: string, def: TypeDef)
    ensures var r := AddTypes(types, typeDef, def);
            && (r.key.None? <==> forall j {:trigger WithIndex(typeDef, j)} :: 0 <= j < MAX_DUPLICATES ==>
                                   WithIndex(typeDef, j) in types && types[WithIndex(typeDef, j)] != def)
            && (r.key.None? ==> r.types == types)
            && (r.key.Some? ==> EndsInDigit(r.key.value) && r.types == types[r.key.value := def])
            && (r.key.Some? ==> exists i :: 0 <= i < MAX_DUPLICATES && r.key.value == WithIndex(typeDef, i))
  {
    ProbeIsLeast(types, typeDef, def, 0);
    var r := Probe(types, typeDef, def, 0);
    if r.Some? { KeyEndsInDigit(typeDef, r.value); }
  }

  // --- Growing the map keeps what is known of it ---

  lemma {:induction false} ConformsStays(a: Types, b: Types, key: string, json: Json)
    requires KeepsInferred(a, b) && Conforms(a, key, json)
    ensures Conforms(b, key, json)
    decreases json, 0
  {
    var def := a[key];
    forall i | 0 <= i < |def| ensures HasType(b, json.fields[def[i].name], def[i].typ) {
      HasTypeStays(a, b, json.fields[def[i].name], def[i].typ);
    }
  }

  lemma {:induction false} HasTypeStays(a: Types, b: Types, value: Json, typ: string)
    requires KeepsInferred(a, b) && HasType(a, value, typ)
    ensures HasType(b, value, typ)
    decreases value, 1
  {
    if value.Object? {
      ConformsStays(a, b, typ, value);
    } else if value.Array? && value.items != [] && value.items[0].Object? {
      ConformsStays(a, b, BaseType(typ), value.items[0]);
    }
  }

  lemma DefRefersStays(a: Types, b: Types, def: TypeDef)
    requires a.Keys <= b.Keys && DefRefers(a, def)
    ensures DefRefers(b, def)
  {
  }

  lemma ClosedStays(types: Types, key: string, def: TypeDef)
    requires Closed(types) && DefRefers(types, def)
    ensures Closed(types[key := def])
  {
    var b := types[key := def];
    forall k | k in b ensures DefRefers(b, b[k]) {
      DefRefersStays(types, b, if k == key then def else types[k]);
    }
  }

  /** A type that fits a value refers only to what is there. */
  lemma HasTypeRefers(types: Types, value: Json, typ: string)
    requires HasType(types, value, typ)
    ensures Refers(types, typ)
  {
    ArrayOf("string");
    assert "string[]" == "string" + "[]";
    if !value.Array? {
      ElementRefers(types, value, typ);
    } else if value.items != [] {
      ElementRefers(types, value.items[0], BaseType(typ));
    }
  }

  lemma ElementRefers(types: Types, e: Json, typ: string)
    requires ElementHasType(types, e, typ)
    ensures (IsPrimitive(typ) || typ in types) && !IsArrayType(typ)
  {
  }

  // --- Inference is right ---

  /** What is known of the fields listed so far. */
  ghost predicate Fits(types: Types, def: TypeDef, json: Json, names: seq<string>)
    requires json.Object?
  {
    && DescendingFields(def)
    && Covers(def, json, set n | n in names)
    && (forall i :: 0 <= i < |def| ==> def[i].name in names)
    && (forall i :: 0 <= i < |def| ==>
          def[i].name in json.fields && HasType(types, json.fields[def[i].name], def[i].typ))
  }

  lemma FitsRefers(types: Types, def: TypeDef, json: Json, names: seq<string>)
    requires json.Object? && Fits(types, def, json, names)
    ensures DefRefers(types, def)
  {
    forall i | 0 <= i < |def| ensures Refers(types, def[i].typ) {
      HasTypeRefers(types, json.fields[def[i].name], def[i].typ);
    }
  }

  lemma FitsStays(a: Types, b: Types, def: TypeDef, json: Json, names: seq<string>)
    requires json.Object? && Extends(a, b) && Fits(a, def, json, names)
    ensures Fits(b, def, json, names)
  {
    forall i | 0 <= i < |def| ensures HasType(b, json.fields[def[i].name], def[i].typ) {
      HasTypeStays(a, b, json.fields[def[i].name], def[i].typ);
    }
  }

  lemma FitsOneMore(types: Types, def: TypeDef, json: Json, names: seq<string>, typ: string)
    requires json.Object? && names != [] && IsDescending(names) && names[|names| - 1] in json.fields
    requires Fits(types, def, json, names[..|names| - 1])
    requires HasType(types, json.fields[names[|names| - 1]], typ)
    ensures Fits(types, def + [FieldType(names[|names| - 1], typ)], json, names)
  {
    var n := |names| - 1;
    var more := def + [FieldType(names[n], typ)];
    assert more[|def|].name == names[n];
    forall i | 0 <= i < |def| ensures LexLess(names[n], def[i].name) {
      var j :| 0 <= j < n && names[..n][j] == def[i].name;
    }
    assert Covers(more, json, set x | x in names) by {
      forall name | name in names && name in json.fields && IsTyped(json.fields[name]) ensures Lists(more, name) {
        if name in names[..n] {
          assert Lists(def, name);
          var i :| 0 <= i < |def| && def[i].name == name;
          assert more[i].name == name;
        }
      }
    }
  }

  lemma FitsSkipped(types: Types, def: TypeDef, json: Json, names: seq<string>)
    requires json.Object? && names != [] && names[|names| - 1] in json.fields
    requires Fits(types, def, json, names[..|names| - 1]) && !IsTyped(json.fields[names[|names| - 1]])
    ensures Fits(types, def, json, names)
  {
    var n := |names| - 1;
    forall name | name in names && name in json.fields && IsTyped(json.fields[name]) ensures Lists(def, name) {
      assert name in names[..n];
    }
  }

  lemma BasicFits(types: Types, value: Json)
    requires BasicType(value).Some?
    ensures HasType(types, value, BasicType(value).value)
  {
    if IsCollection(value) {
      ArrayOf(EthType(value.items[0]));
    }
  }

  lemma ArrayOf(t: string)
    ensures IsArrayType(t + "[]") && BaseType(t + "[]") == t
  {
    assert (t + "[]")[|t|..] == "[]";
  }

  /** Inference keeps every definition and closedness; its key names a definition the object conforms to. */
  lemma {:induction false} InferIsRight(types: Types, rootType: string, prefix: string, json: Json)
    requires json.Object? && Closed(types)
    ensures var r := Infer(types, rootType, prefix, json);
            && Closed(r.types)
            && (r.key.Some? ==> Conforms(r.types, r.key.value, json))
            && (r.key.Some? && prefix != "_" ==> Sanitize(r.key.value) == r.key.value)
    decreases json
  {
    hide Conforms, HasType, Sanitize, WithIndex, Probe, AddTypes, Closed, DefRefers, Descending, InferFields;
    var names := Descending(json.fields.Keys);
    DescendingDescends(json.fields.Keys);
    InferFieldsIsRight(types, rootType, prefix, json, names);
    var listed := InferFields(types, rootType, prefix, json, names);
    if listed.def.Some? {
      assert (set n | n in names) == json.fields.Keys;
      AddedIsRight(listed.types, prefix, rootType, listed.def.value, json, names);
    }
  }

  lemma AddedIsRight(types: Types, prefix: string, rootType: string, def: TypeDef, json: Json, names: seq<string>)
    requires json.Object? && Closed(types) && Fits(types, def, json, names) && (set n | n in names) == json.fields.Keys
    ensures var r := AddTypes(types, TypeDefFor(prefix, rootType), def);
            && Closed(r.types)
            && (r.key.Some? ==> Conforms(r.types, r.key.value, json))
            && (r.key.Some? && prefix != "_" ==> Sanitize(r.key.value) == r.key.value)
  {
    hide HasType, Sanitize, WithIndex, Probe, AddTypes, Closed, DefRefers, Covers;
    AddTypesMeans(types, TypeDefFor(prefix, rootType), def);
    var r := AddTypes(types, TypeDefFor(prefix, rootType), def);
    if r.key.Some? {
      FitsRefers(types, def, json, names);
      ClosedStays(types, r.key.value, def);
      FitsStays(types, r.types, def, json, names);
      var i :| 0 <= i < MAX_DUPLICATES && r.key.value == WithIndex(TypeDefFor(prefix, rootType), i);
      KeyIsSanitised(prefix, i);
    }
  }

  lemma {:induction false} InferFieldsIsRight(types: Types, rootType: string, prefix: string, json: Json,
                                              names: seq<string>)
    requires json.Object? && Closed(types) && IsDescending(names) && forall n :: n in names ==> n in json.fields
    ensures var r := InferFields(types, rootType, prefix, json, names);
            && Closed(r.types)
            && (r.def.Some? ==> Fits(r.types, r.def.value, json, names))
    decreases json, |names|
  {
    hide Conforms, HasType, Closed, Infer, InferField, IsTyped;
    if names != [] {
      var n := |names| - 1;
      InferFieldsIsRight(types, rootType, prefix, json, names[..n]);
      var before := InferFields(types, rootType, prefix, json, names[..n]);
      assert names[n] in names;
      if before.def.Some? {
        InferFieldIsRight(before.types, rootType, prefix, json, names, before.def.value);
      }
    }
  }

  lemma {:induction false} InferFieldIsRight(types: Types, rootType: string, prefix: string, json: Json,
                                             names: seq<string>, def: TypeDef)
    requires json.Object? && Closed(types) && IsDescending(names) && names != []
    requires forall n :: n in names ==> n in json.fields
    requires Fits(types, def, json, names[..|names| - 1])
    ensures var r := InferField(types, rootType, prefix, json, names[|names| - 1], def);
            && Closed(r.types)
            && (r.def.Some? ==> Fits(r.types, r.def.value, json, names))
    decreases json, 0
  {
    hide Conforms, Closed, Infer, Fits, Sanitize, BasicType;
    var n := |names| - 1;
    assert names[n] in names;
    var value := json.fields[names[n]];
    if BasicType(value).Some? {
      BasicFits(types, value);
      FitsOneMore(types, def, json, names, BasicType(value).value);
    } else if Element(value).Object? {
      InferIsRight(types, rootType, SubPrefix(prefix, names[n]), Element(value));
      var sub := Infer(types, rootType, SubPrefix(prefix, names[n]), Element(value));
      if sub.key.Some? {
        FitsStays(types, sub.types, def, json, names[..n]);
        ArrayOf(sub.key.value);
        assert sub.key.value + "" == sub.key.value;
        SubPrefixIsNotRoot(prefix, names[n]);
        FitsOneMore(sub.types, def, json, names, Sanitize(sub.key.value) + Suffix(value));
      }
    } else {
      FitsSkipped(types, def, json, names);
    }
  }

  lemma SubPrefixIsNotRoot(prefix: string, field: string)
    ensures SubPrefix(prefix, field) != "_"
  {
    assert SubPrefix(prefix, field)[|prefix|] == '.';
  }

  // --- The whole schema ---

  /** The definitions every schema starts with. */
  const BASE_TX: TypeDef := [
    FieldType("account_number", "string"), FieldType("chain_id", "string"), FieldType("fee", "Fee"),
    FieldType("memo", "string"), FieldType("sequence", "string")]

  const BASE: Types := map[
    "EIP712Domain" := [
      FieldType("name", "string"), FieldType("version", "string"), FieldType("chainId", "uint256"),
      FieldType("verifyingContract", "string"), FieldType("salt", "string")],
    "Tx" := BASE_TX,
    "Fee" := [FieldType("amount", "Coin[]"), FieldType("gas", "string")],
    "Coin" := [FieldType("denom", "string"), FieldType("amount", "string")]]

  /** msgFieldForIndex. */
  function MsgField(i: nat): string { "msg" + Decimal(i) }

  /** msgRootType: the last part of the message's "type" string, or an error. */
  function RootType(msg: Json): Option<string>
    requires msg.Object?
  {
    if "type" in msg.fields && msg.fields["type"].Text? && msg.fields["type"].text != "" then
      var parts := Split(msg.fields["type"].text, '/');
      Some("Type" + parts[|parts| - 1])
    else None
  }

  ghost predicate HasTypeText(msg: Json) {
    msg.Object? && "type" in msg.fields && msg.fields["type"].Text? && msg.fields["type"].text != ""
  }

  /** The root type is "Type" and what follows the last slash of the message's "type" string. */
  lemma RootTypeIs(msg: Json)
    requires msg.Object?
    ensures RootType(msg)
            == if HasTypeText(msg) then Some("Type" + AfterLast(msg.fields["type"].text, '/')) else None
  {
    if HasTypeText(msg) {
      LastOfSplit(msg.fields["type"].text, '/', AfterLast(msg.fields["type"].text, '/'));
    }
  }

  /** The type is named after the message: its root type and an index. */
  ghost predicate NamedAfter(typ: string, msg: Json) {
    && HasTypeText(msg)
    && exists j :: 0 <= j < MAX_DUPLICATES && typ == WithIndex("Type" + AfterLast(msg.fields["type"].text, '/'), j)
  }

  lemma InferredIsNamed(types: Types, msg: Json)
    requires msg.Object? && RootType(msg).Some? && Infer(types, RootType(msg).value, "_", msg).key.Some?
    ensures NamedAfter(Infer(types, RootType(msg).value, "_", msg).key.value, msg)
  {
    hide AddTypes, RootType, WithIndex, AfterLast;
    var root := RootType(msg).value;
    var listed := InferFields(types, root, "_", msg, Descending(msg.fields.Keys));
    AddTypesMeans(listed.types, root, listed.def.value);
    RootTypeIs(msg);
  }

  /** addMsgTypesToRoot; the map as the error leaves it is dropped by the caller. */
  function AddMsg(types: Types, payload: map<string, Json>, i: nat): Option<Types>
    requires "Tx" in types
  {
    if MsgField(i) !in payload || !payload[MsgField(i)].Object? then None
    else
      var msg := payload[MsgField(i)];
      if RootType(msg).None? then None
      else
        var r := Infer(types, RootType(msg).value, "_", msg);
        if r.key.None? then None
        else Some(WithTxField(r.types, MsgField(i), r.key.value))
  }

  /** addMsgTypeDefToTxSchema. */
  function WithTxField(types: Types, name: string, typ: string): Types
    requires "Tx" in types
  {
    types["Tx" := types["Tx"] + [FieldType(name, typ)]]
  }

  /** createEIP712Types over the first n messages of the flattened payload. */
  function Schema(payload: map<string, Json>, n: nat): (r: Option<Types>)
    ensures r.Some? ==> "Tx" in r.value
  {
    if n == 0 then Some(BASE)
    else
      var before := Schema(payload, n - 1);
      if before.None? then None else AddMsg(before.value, payload, n - 1)
  }

  /** Tx has message i, an object, as its field under a type named after it, and the message conforms to that type. */
  ghost predicate MsgTyped(types: Types, payload: map<string, Json>, i: nat) {
    && "Tx" in types && |BASE_TX| + i < |types["Tx"]|
    && MsgField(i) in payload
    && types["Tx"][|BASE_TX| + i].name == MsgField(i)
    && NamedAfter(types["Tx"][|BASE_TX| + i].typ, payload[MsgField(i)])
    && Conforms(types, types["Tx"][|BASE_TX| + i].typ, payload[MsgField(i)])
  }

  ghost predicate SchemaInv(types: Types, payload: map<string, Json>, n: nat) {
    && "Tx" in types && |types["Tx"]| == |BASE_TX| + n && types["Tx"][..|BASE_TX|] == BASE_TX
    && Closed(types)
    && (forall k | k in BASE && k != "Tx" :: k in types && types[k] == BASE[k])
    && (forall i :: 0 <= i < n ==> MsgTyped(types, payload, i))
  }

  lemma BaseIsClosed()
    ensures Closed(BASE)
  {
    ArrayOf("Coin");
    assert "Coin[]" == "Coin" + "[]";
    forall k | k in BASE ensures DefRefers(BASE, BASE[k]) {
      var def := BASE[k];
      forall i | 0 <= i < |def| ensures Refers(BASE, def[i].typ) { BaseRefers(def[i].typ); }
    }
  }

  lemma BaseRefers(t: string)
    requires t == "string" || t == "uint256" || t == "Fee" || t == "Coin[]"
    ensures Refers(BASE, t)
  {
    ArrayOf("Coin");
    assert "Coin[]" == "Coin" + "[]";
  }

  lemma WithTxFieldKeeps(types: Types, name: string, typ: string)
    requires "Tx" in types && Closed(types) && typ in types && EndsInDigit(typ)
    ensures Closed(WithTxField(types, name, typ)) && KeepsInferred(types, WithTxField(types, name, typ))
  {
    var def := types["Tx"] + [FieldType(name, typ)];
    assert DefRefers(types, types["Tx"]);
    ClosedStays(types, "Tx", def);
  }

  /** One message more: everything known of the schema stays, and the message is typed. */
  lemma AddMsgKeeps(types: Types, payload: map<string, Json>, n: nat)
    requires SchemaInv(types, payload, n) && AddMsg(types, payload, n).Some?
    ensures SchemaInv(AddMsg(types, payload, n).value, payload, n + 1)
  {
    hide Infer, Conforms, Closed, RootType, MsgField, NamedAfter;
    var msg := payload[MsgField(n)];
    var r := Infer(types, RootType(msg).value, "_", msg);
    InferIsRight(types, RootType(msg).value, "_", msg);
    InferredIsNamed(types, msg);
    ConformsNames(r.types, r.key.value, msg);
    WithTxFieldKeeps(r.types, MsgField(n), r.key.value);
    var after := AddMsg(types, payload, n).value;
    ConformsStays(r.types, after, r.key.value, msg);
    forall i | 0 <= i < n ensures MsgTyped(after, payload, i) {
      assert MsgTyped(types, payload, i);
      ConformsStays(types, after, types["Tx"][|BASE_TX| + i].typ, payload[MsgField(i)]);
    }
    assert MsgTyped(after, payload, n);
  }

  lemma ConformsNames(types: Types, key: string, json: Json)
    requires Conforms(types, key, json)
    ensures key in types && EndsInDigit(key)
  {
  }

  /**
   * A schema keeps the base definitions, refers only to what it defines, lists the messages in
   * Tx in order, and types every message, whatever the messages before and after it added.
   */
  lemma {:induction false} SchemaIsRight(payload: map<string, Json>, n: nat)
    requires Schema(payload, n).Some?
    ensures SchemaInv(Schema(payload, n).value, payload, n)
  {
    if n == 0 {
      BaseIsClosed();
    } else {
      SchemaIsRight(payload, n - 1);
      AddMsgKeeps(Schema(payload, n - 1).value, payload, n - 1);
    }
  }

  // --- The code ---

  method TypesAreEqual(a: TypeDef, b: TypeDef) returns (equal: bool)
    ensures equal <==> a == b
  {
    if |a| != |b| { return false; }
    for i := 0 to |a|
      invariant a[..i] == b[..i]
    {
      if a[i].name != b[i].name || a[i].typ != b[i].typ { return false; }
    }
    assert a == a[..|a|] && b == b[..|b|];
    return true;
  }

  /** Keys come in no fixed order out of the map; the sorted listing is the same for each. */
  method SortedJsonKeys(json: Json) returns (keys: seq<string>)
    requires json.Object?
    ensures keys == Descending(json.fields.Keys)
  {
    keys := [];
    var left := json.fields.Keys;
    while left != {}
      invariant left <= json.fields.Keys && IsDescending(keys)
      invariant forall k :: k in keys <==> k in json.fields.Keys - left
      decreases |left|
    {
      var k := AnyOf(left);
      keys := InsertKey(keys, k);
      left := left - {k};
    }
    DescendingIsUnique(keys, json.fields.Keys);
  }

  method InsertKey(keys: seq<string>, k: string) returns (r: seq<string>)
    requires IsDescending(keys) && k !in keys
    ensures IsDescending(r) && forall x :: x in r <==> x == k || x in keys
  {
    var i := 0;
    while i < |keys| && LexLess(k, keys[i])
      invariant i <= |keys|
      invariant forall j :: 0 <= j < i ==> LexLess(k, keys[j])
    {
      i := i + 1;
    }
    r := keys[..i] + [k] + keys[i..];
    InsertedDescends(keys, k, i);
    assert keys == keys[..i] + keys[i..];
  }

  lemma InsertedDescends(keys: seq<string>, k: string, i: nat)
    requires IsDescending(keys) && k !in keys && i <= |keys|
    requires forall j :: 0 <= j < i ==> LexLess(k, keys[j])
    requires i < |keys| ==> !LexLess(k, keys[i])
    ensures IsDescending(keys[..i] + [k] + keys[i..])
  {
    forall j | i <= j < |keys| ensures LexLess(keys[j], k) {
      LexTrichotomy(k, keys[i]);
      if j > i { LexTransitive(keys[j], keys[i], k); }
    }
  }

  /** The type map that inference fills in place. */
  class TypeMap {
    var types: Types

    constructor ()
      ensures types == BASE
    {
      types := BASE;
    }

    /** addTypesToRoot. */
    method AddTypesToRoot(typeDef: string, def: TypeDef) returns (key: Option<string>)
      modifies this
      ensures Inferred(types, key) == AddTypes(old(types), typeDef, def)
    {
      var index := 0;
      var indexed := WithIndex(typeDef, index);
      while indexed in types
        invariant index < MAX_DUPLICATES && indexed == WithIndex(typeDef, index) && types == old(types)
        invariant Probe(types, typeDef, def, 0) == Probe(types, typeDef, def, index)
        decreases MAX_DUPLICATES - index
      {
        var equal := TypesAreEqual(def, types[indexed]);
        if equal {
          assert types[indexed := def] == types;
          return Some(indexed);
        }
        index := index + 1;
        if index == MAX_DUPLICATES { return None; }
        indexed := WithIndex(typeDef, index);
      }
      types := types[indexed := def];
      return Some(indexed);
    }

    /** recursivelyAddTypesToRoot. */
    method RecursivelyAddTypes(rootType: string, prefix: string, payload: Json) returns (key: Option<string>)
      requires payload.Object?
      modifies this
      ensures Inferred(types, key) == Infer(old(types), rootType, prefix, payload)
      decreases payload
    {
      hide AddTypes, BasicType, Sanitize, Descending, Suffix;
      var typesToAdd: TypeDef := [];
      var names := SortedJsonKeys(payload);
      var typeDef := TypeDefFor(prefix, rootType);
      for i := 0 to |names|
        invariant Listed(types, Some(typesToAdd)) == InferFields(old(types), rootType, prefix, payload, names[..i])
      {
        assert names[..i + 1][..i] == names[..i];
        ghost var one := InferField(types, rootType, prefix, payload, names[i], typesToAdd);
        assert InferFields(old(types), rootType, prefix, payload, names[..i + 1]) == one;
        var field := payload.fields[names[i]];
        if BasicType(field).Some? {
          typesToAdd := typesToAdd + [FieldType(names[i], BasicType(field).value)];
        } else if Element(field).Object? {
          var sub := RecursivelyAddTypes(rootType, SubPrefix(prefix, names[i]), Element(field));
          if sub.None? {
            FailureStays(old(types), rootType, prefix, payload, names, i + 1);
            return None;
          }
          typesToAdd := typesToAdd + [FieldType(names[i], Sanitize(sub.value) + Suffix(field))];
        }
      }
      assert names[..|names|] == names;
      key := AddTypesToRoot(typeDef, typesToAdd);
    }

    /** addMsgTypesToRoot. */
    method AddMsgTypes(payload: map<string, Json>, i: nat) returns (ok: bool)
      requires "Tx" in types
      modifies this
      ensures ok ==> AddMsg(old(types), payload, i) == Some(types)
      ensures !ok ==> AddMsg(old(types), payload, i) == None
    {
      hide Infer, RootType;
      if MsgField(i) !in payload || !payload[MsgField(i)].Object? { return false; }
      var msg := payload[MsgField(i)];
      var rootType := RootType(msg);
      if rootType.None? { return false; }
      var key := RecursivelyAddTypes(rootType.value, "_", msg);
      if key.None? { return false; }
      types := WithTxField(types, MsgField(i), key.value);
      return true;
    }
  }

  /** Once a field fails, the fields after it are not looked at. */
  lemma {:induction false} FailureStays(types: Types, rootType: string, prefix: string, json: Json, names: seq<string>,
                                        i: nat)
    requires json.Object? && i <= |names| && forall n :: n in names ==> n in json.fields
    requires InferFields(types, rootType, prefix, json, names[..i]).def.None?
    ensures InferFields(types, rootType, prefix, json, names) == InferFields(types, rootType, prefix, json, names[..i])
  {
    if i < |names| {
      var shorter := names[..|names| - 1];
      assert shorter[..i] == names[..i];
      FailureStays(types, rootType, prefix, json, shorter, i);
    } else {
      assert names[..i] == names;
    }
  }

  /** createEIP712Types. */
  method CreateTypes(payload: map<string, Json>, n: nat) returns (result: Option<Types>)
    ensures result == Schema(payload, n)
    ensures result.Some? ==> SchemaInv(result.value, payload, n)
  {
    hide AddMsg, SchemaInv, BASE;
    var m := new TypeMap();
    for i := 0 to n
      invariant Schema(payload, i) == Some(m.types)
    {
      var ok := m.AddMsgTypes(payload, i);
      if !ok {
        NoSchemaAfter(payload, i + 1, n);
        return None;
      }
    }
    SchemaIsRight(payload, n);
    return Some(m.types);
  }

  lemma {:induction false} NoSchemaAfter(payload: map<string, Json>, i: nat, n: nat)
    requires i <= n && Schema(payload, i).None?
    ensures Schema(payload, n).None?
  {
    hide AddMsg, BASE;
    if i < n { NoSchemaAfter(payload, i, n - 1); }
  }
}
