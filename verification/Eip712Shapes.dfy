/**
 * What an inferred EIP-712 type says about a message as a whole (ethereum/eip712/types.go). Inference
 * types an array by its first element, so the type fits every element only where arrays are uniform.
 */
module Eip712Shapes {
  import opened Common
  import opened Numerals
  import opened TypeNames
  import opened Eip712Types

  // --- Conformance of every element ---

  /** As Conforms, but every element of an array has the array's base type. */
  ghost predicate FullyConforms(types: Types, key: string, json: Json)
    decreases json, 0
  {
    && json.Object? && EndsInDigit(key) && key in types
    && DescendingFields(types[key])
    && Covers(types[key], json, json.fields.Keys)
    && (forall i :: 0 <= i < |types[key]| ==>
          && types[key][i].name in json.fields
          && FullyHasType(types, json.fields[types[key][i].name], types[key][i].typ))
  }

  ghost predicate FullyHasType(types: Types, value: Json, typ: string)
    decreases value, 2
  {
    if value.Array? && value.items == [] then typ == "string[]"
    else if value.Array? then
      && IsArrayType(typ)
      && forall i :: 0 <= i < |value.items| ==> FullyElementHasType(types, value.items[i], BaseType(typ))
    else FullyElementHasType(types, value, typ)
  }

  ghost predicate FullyElementHasType(types: Types, e: Json, typ: string)
    decreases e, 1
  {
    match e
    case Bool => typ == "bool"
    case Number => typ == "int64"
    case Text(_) => typ == "string"
    case Object(_) => FullyConforms(types, typ, e)
    case _ => false
  }

  // --- The shape of a message, without any type map ---

  datatype Shape = Untyped | Primitive(typ: string) | ListOf(element: Shape) | Record(fields: map<string, Shape>)

  /** An array has the shape of its first element, an object the shapes of its typed fields. */
  function ShapeOf(j: Json): Shape {
    match j
    case Null => Untyped
    case Bool => Primitive("bool")
    case Number => Primitive("int64")
    case Text(_) => Primitive("string")
    case Array(items) =>
      if items == [] then ListOf(Primitive("string"))
      else if items[0].Null? || items[0].Array? then Untyped
      else ListOf(ShapeOf(items[0]))
    case Object(fields) => Record(map name | name in fields && IsTyped(fields[name]) :: ShapeOf(fields[name]))
  }

  /** In every array of a typed field, at every depth, all elements have the first one's shape. */
  ghost predicate Uniform(j: Json) {
    match j
    case Array(items) => forall i :: 0 <= i < |items| ==> ShapeOf(items[i]) == ShapeOf(items[0]) && Uniform(items[i])
    case Object(fields) => forall name :: name in fields && IsTyped(fields[name]) ==> Uniform(fields[name])
    case _ => true
  }

  // --- Types and shapes determine each other ---

  lemma HasTypeIsTyped(types: Types, value: Json, typ: string)
    requires HasType(types, value, typ)
    ensures IsTyped(value)
  {
    hide Conforms;
  }

  /** The definition that an object conforms to lists exactly the object's typed fields. */
  lemma ListedIffTyped(types: Types, key: string, json: Json, name: string)
    requires Conforms(types, key, json)
    ensures Lists(types[key], name) <==> name in json.fields && IsTyped(json.fields[name])
  {
    hide HasType, IsTyped;
    if Lists(types[key], name) {
      var i :| 0 <= i < |types[key]| && types[key][i].name == name;
      HasTypeIsTyped(types, json.fields[name], types[key][i].typ);
    }
  }

  /** The type that the definition gives a typed field of a conforming object. */
  lemma TypedIsListed(types: Types, key: string, json: Json, name: string) returns (i: nat)
    requires Conforms(types, key, json) && name in json.fields && IsTyped(json.fields[name])
    ensures i < |types[key]| && types[key][i].name == name && HasType(types, json.fields[name], types[key][i].typ)
  {
    hide HasType, IsTyped;
    assert Lists(types[key], name);
    i :| 0 <= i < |types[key]| && types[key][i].name == name;
  }

  lemma RecordOf(json: Json, name: string)
    requires json.Object?
    ensures ShapeOf(json).Record?
    ensures name in ShapeOf(json).fields <==> name in json.fields && IsTyped(json.fields[name])
    ensures name in ShapeOf(json).fields ==> ShapeOf(json).fields[name] == ShapeOf(json.fields[name])
  {
    hide IsTyped;
  }

  /** Two objects of one shape conform to the same definitions. */
  lemma {:induction false} ShapeKeepsConforms(types: Types, key: string, a: Json, b: Json)
    requires Conforms(types, key, a) && ShapeOf(a) == ShapeOf(b)
    ensures Conforms(types, key, b)
    decreases a, 0
  {
    hide HasType, IsTyped;
    assert b.Object?;
    var def := types[key];
    forall i | 0 <= i < |def|
      ensures def[i].name in b.fields && HasType(types, b.fields[def[i].name], def[i].typ)
    {
      var name := def[i].name;
      HasTypeIsTyped(types, a.fields[name], def[i].typ);
      RecordOf(a, name);
      RecordOf(b, name);
      ShapeKeepsType(types, a.fields[name], b.fields[name], def[i].typ);
    }
    forall name | name in b.fields && IsTyped(b.fields[name]) ensures Lists(def, name) {
      RecordOf(a, name);
      RecordOf(b, name);
    }
  }

  lemma {:induction false} ShapeKeepsType(types: Types, v: Json, w: Json, typ: string)
    requires HasType(types, v, typ) && ShapeOf(v) == ShapeOf(w)
    ensures HasType(types, w, typ)
    decreases v, 2
  {
    hide Conforms;
    ArrayOf("string");
    assert "string[]" == "string" + "[]";
    if v.Array? {
      assert w.Array?;
      assert IsArrayType(typ) ==> typ == BaseType(typ) + "[]";
      if v.items != [] && w.items != [] {
        ShapeKeepsElement(types, v.items[0], w.items[0], BaseType(typ));
      }
    } else {
      ShapeKeepsElement(types, v, w, typ);
    }
  }

  lemma {:induction false} ShapeKeepsElement(types: Types, e: Json, f: Json, typ: string)
    requires ElementHasType(types, e, typ) && ShapeOf(e) == ShapeOf(f)
    ensures ElementHasType(types, f, typ)
    decreases e, 1
  {
    hide Conforms;
    if e.Object? { ShapeKeepsConforms(types, typ, e, f); }
  }

  /** No definition has the name of a type that elements can have without one. */
  ghost predicate NoPrimitiveKey(types: Types) { "int64" !in types }

  /** Two objects that conform to one definition have one shape. */
  lemma {:induction false} ConformsFixesShape(types: Types, key: string, a: Json, b: Json)
    requires Conforms(types, key, a) && Conforms(types, key, b) && NoPrimitiveKey(types)
    ensures ShapeOf(a) == ShapeOf(b)
    decreases a, 1
  {
    hide HasType, IsTyped, Conforms;
    ConformsToObject(types, key, a);
    ConformsToObject(types, key, b);
    var x, y := ShapeOf(a).fields, ShapeOf(b).fields;
    forall name ensures name in x <==> name in y {
      RecordOf(a, name);
      RecordOf(b, name);
      ListedIffTyped(types, key, a, name);
      ListedIffTyped(types, key, b, name);
    }
    forall name | name in x ensures x[name] == y[name] {
      RecordOf(a, name);
      RecordOf(b, name);
      SameFieldShape(types, key, a, b, name);
    }
    assert x == y;
  }

  lemma ConformsToObject(types: Types, key: string, json: Json)
    requires Conforms(types, key, json)
    ensures json.Object? && ShapeOf(json).Record? && key in types && EndsInDigit(key)
  {
  }

  lemma {:induction false} SameFieldShape(types: Types, key: string, a: Json, b: Json, name: string)
    requires Conforms(types, key, a) && Conforms(types, key, b) && NoPrimitiveKey(types)
    requires name in a.fields && IsTyped(a.fields[name]) && name in b.fields && IsTyped(b.fields[name])
    ensures ShapeOf(a.fields[name]) == ShapeOf(b.fields[name])
    decreases a, 0
  {
    hide HasType, IsTyped;
    var i := TypedIsListed(types, key, a, name);
    TypeFixesShape(types, a.fields[name], b.fields[name], types[key][i].typ);
  }

  lemma {:induction false} TypeFixesShape(types: Types, v: Json, w: Json, typ: string)
    requires HasType(types, v, typ) && HasType(types, w, typ) && NoPrimitiveKey(types)
    ensures ShapeOf(v) == ShapeOf(w)
    decreases v, 3
  {
    hide Conforms;
    ArrayOf("string");
    assert "string[]" == "string" + "[]";
    ArrayIffArrayType(types, v, typ);
    ArrayIffArrayType(types, w, typ);
    if !v.Array? {
      ElementTypeFixesShape(types, v, w, typ);
    } else if v.items != [] && w.items != [] {
      ElementTypeFixesShape(types, v.items[0], w.items[0], BaseType(typ));
    } else if v.items != [] {
      ElementTypeFixesShape(types, v.items[0], Text(""), "string");
    } else if w.items != [] {
      ElementIsString(types, w.items[0]);
    }
  }

  lemma ArrayIffArrayType(types: Types, value: Json, typ: string)
    requires HasType(types, value, typ)
    ensures value.Array? <==> IsArrayType(typ)
  {
    hide Conforms;
    if !value.Array? { ElementRefers(types, value, typ); }
  }

  lemma ElementIsString(types: Types, e: Json)
    requires ElementHasType(types, e, "string")
    ensures e.Text?
  {
  }

  lemma {:induction false} ElementTypeFixesShape(types: Types, e: Json, f: Json, typ: string)
    requires ElementHasType(types, e, typ) && ElementHasType(types, f, typ) && NoPrimitiveKey(types)
    ensures ShapeOf(e) == ShapeOf(f)
    decreases e, 2
  {
    hide Conforms;
    if e.Object? { ConformsToObject(types, typ, e); }
    if f.Object? { ConformsToObject(types, typ, f); }
    if e.Object? && f.Object? { ConformsFixesShape(types, typ, e, f); }
  }

  // --- Full conformance is uniformity ---

  lemma {:induction false} FullyIsMore(types: Types, key: string, json: Json)
    requires FullyConforms(types, key, json)
    ensures Conforms(types, key, json)
    decreases json, 0
  {
    hide FullyHasType;
    var def := types[key];
    forall i | 0 <= i < |def| ensures HasType(types, json.fields[def[i].name], def[i].typ) {
      FullyTypeIsMore(types, json.fields[def[i].name], def[i].typ);
    }
  }

  lemma {:induction false} FullyTypeIsMore(types: Types, value: Json, typ: string)
    requires FullyHasType(types, value, typ)
    ensures HasType(types, value, typ)
    decreases value, 2
  {
    hide FullyConforms, Conforms;
    if !value.Array? {
      FullyElementIsMore(types, value, typ);
    } else if value.items != [] {
      FullyElementIsMore(types, value.items[0], BaseType(typ));
    }
  }

  lemma {:induction false} FullyElementIsMore(types: Types, e: Json, typ: string)
    requires FullyElementHasType(types, e, typ)
    ensures ElementHasType(types, e, typ)
    decreases e, 1
  {
    hide FullyConforms, Conforms;
    if e.Object? { FullyIsMore(types, typ, e); }
  }

  /** An object that conforms by first elements conforms with every element exactly when it is uniform. */
  lemma {:induction false} FullyIff(types: Types, key: string, json: Json)
    requires Conforms(types, key, json) && NoPrimitiveKey(types)
    ensures FullyConforms(types, key, json) <==> Uniform(json)
    decreases json, 0
  {
    hide HasType, FullyHasType, IsTyped;
    var def := types[key];
    forall i | 0 <= i < |def|
      ensures FullyHasType(types, json.fields[def[i].name], def[i].typ) <==> Uniform(json.fields[def[i].name])
      ensures IsTyped(json.fields[def[i].name])
    {
      FullyTypeIff(types, json.fields[def[i].name], def[i].typ);
      HasTypeIsTyped(types, json.fields[def[i].name], def[i].typ);
    }
    forall name | name in json.fields && IsTyped(json.fields[name]) && FullyConforms(types, key, json)
      ensures Uniform(json.fields[name])
    {
      var i := TypedIsListed(types, key, json, name);
    }
  }

  lemma {:induction false} FullyTypeIff(types: Types, value: Json, typ: string)
    requires HasType(types, value, typ) && NoPrimitiveKey(types)
    ensures FullyHasType(types, value, typ) <==> Uniform(value)
    decreases value, 2
  {
    hide Conforms, FullyConforms, ElementHasType, FullyElementHasType, ShapeOf;
    if !value.Array? {
      FullyElementIff(types, value, typ);
    } else if value.items != [] {
      var items, t := value.items, BaseType(typ);
      forall i | 0 <= i < |items|
        ensures FullyElementHasType(types, items[i], t) <==> ShapeOf(items[i]) == ShapeOf(items[0]) && Uniform(items[i])
      {
        if FullyElementHasType(types, items[i], t) {
          FullyElementIsMore(types, items[i], t);
          ElementTypeFixesShape(types, items[i], items[0], t);
          FullyElementIff(types, items[i], t);
        }
        if ShapeOf(items[i]) == ShapeOf(items[0]) && Uniform(items[i]) {
          ShapeKeepsElement(types, items[0], items[i], t);
          FullyElementIff(types, items[i], t);
        }
      }
    }
  }

  lemma {:induction false} FullyElementIff(types: Types, e: Json, typ: string)
    requires ElementHasType(types, e, typ) && NoPrimitiveKey(types)
    ensures FullyElementHasType(types, e, typ) <==> Uniform(e)
    decreases e, 1
  {
    hide Conforms, FullyConforms;
    if e.Object? { FullyIff(types, typ, e); }
  }

  // --- Inferred names ---

  ghost predicate StartsWithT(name: string) { name != "" && name[0] == 'T' }

  /** The prefixes inference works with: the root's, and those of fields below it. */
  ghost predicate IsPrefix(prefix: string) { prefix == "_" || (|prefix| >= 2 && prefix[..2] == "_.") }

  lemma NameStartsWithT(prefix: string, rootType: string)
    requires IsPrefix(prefix) && StartsWithT(rootType)
    ensures StartsWithT(TypeDefFor(prefix, rootType))
  {
    if prefix != "_" {
      var rest := prefix[1..];
      assert prefix[0] == prefix[..2][0] && rest[0] == prefix[..2][1];
      assert Split(rest, '.')[0] == "";
      assert Split(prefix, '.')[0] == "_";
    }
  }

  lemma SubPrefixIsPrefix(prefix: string, name: string)
    requires IsPrefix(prefix)
    ensures IsPrefix(SubPrefix(prefix, name))
  {
    assert SubPrefix(prefix, name)[..2] == "_.";
  }

  /** Every definition of b is one of a or has a name that starts with T. */
  ghost predicate AddsOnlyT(a: Types, b: Types) {
    forall k | k in b :: k in a || StartsWithT(k)
  }

  lemma AddTypesNames(types: Types, typeDef: string, def: TypeDef)
    requires StartsWithT(typeDef)
    ensures AddsOnlyT(types, AddTypes(types, typeDef, def).types)
  {
    hide Probe;
  }

  /** Inference adds only definitions whose names start with T. */
  lemma {:induction false} InferNames(types: Types, rootType: string, prefix: string, json: Json)
    requires json.Object? && IsPrefix(prefix) && StartsWithT(rootType)
    ensures AddsOnlyT(types, Infer(types, rootType, prefix, json).types)
    decreases json
  {
    hide AddTypes, InferFields, Descending, TypeDefFor;
    var listed := InferFields(types, rootType, prefix, json, Descending(json.fields.Keys));
    InferFieldsNames(types, rootType, prefix, json, Descending(json.fields.Keys));
    if listed.def.Some? {
      NameStartsWithT(prefix, rootType);
      AddTypesNames(listed.types, TypeDefFor(prefix, rootType), listed.def.value);
    }
  }

  lemma {:induction false} InferFieldsNames(types: Types, rootType: string, prefix: string, json: Json,
                                            names: seq<string>)
    requires json.Object? && (forall n :: n in names ==> n in json.fields) && IsPrefix(prefix) && StartsWithT(rootType)
    ensures AddsOnlyT(types, InferFields(types, rootType, prefix, json, names).types)
    decreases json, |names|
  {
    hide Infer, InferField;
    if names != [] {
      var n := |names| - 1;
      InferFieldsNames(types, rootType, prefix, json, names[..n]);
      var before := InferFields(types, rootType, prefix, json, names[..n]);
      assert names[n] in names;
      if before.def.Some? {
        InferFieldNames(before.types, rootType, prefix, json, names[n], before.def.value);
      }
    }
  }

  lemma {:induction false} InferFieldNames(types: Types, rootType: string, prefix: string, json: Json, name: string,
                                           def: TypeDef)
    requires json.Object? && name in json.fields && IsPrefix(prefix) && StartsWithT(rootType)
    ensures AddsOnlyT(types, InferField(types, rootType, prefix, json, name, def).types)
    decreases json, 0
  {
    hide Infer, BasicType, Sanitize;
    var value := json.fields[name];
    if BasicType(value).None? && Element(value).Object? {
      SubPrefixIsPrefix(prefix, name);
      InferNames(types, rootType, SubPrefix(prefix, name), Element(value));
    }
  }

  // --- The theorems ---

  /** The object fully conforms to the definition inferred for it exactly when it is uniform. */
  lemma InferFitsIff(types: Types, rootType: string, prefix: string, json: Json)
    requires json.Object? && Closed(types) && NoPrimitiveKey(types) && IsPrefix(prefix) && StartsWithT(rootType)
    requires Infer(types, rootType, prefix, json).key.Some?
    ensures var r := Infer(types, rootType, prefix, json);
            FullyConforms(r.types, r.key.value, json) <==> Uniform(json)
  {
    hide Infer, Conforms, FullyConforms, Uniform, Closed;
    var r := Infer(types, rootType, prefix, json);
    InferIsRight(types, rootType, prefix, json);
    InferNames(types, rootType, prefix, json);
    FullyIff(r.types, r.key.value, json);
  }

  lemma RootTypeStartsWithT(msg: Json)
    requires msg.Object? && RootType(msg).Some?
    ensures StartsWithT(RootType(msg).value)
  {
  }

  lemma {:induction false} SchemaNames(payload: map<string, Json>, n: nat)
    requires Schema(payload, n).Some?
    ensures NoPrimitiveKey(Schema(payload, n).value)
  {
    hide Infer, RootType, MsgField;
    if n > 0 {
      SchemaNames(payload, n - 1);
      var before, msg := Schema(payload, n - 1).value, payload[MsgField(n - 1)];
      RootTypeStartsWithT(msg);
      InferNames(before, RootType(msg).value, "_", msg);
    }
  }

  /** In a finished schema a message fully conforms to its type exactly when it is uniform, whatever the others are. */
  lemma SchemaFitsIff(payload: map<string, Json>, n: nat, i: nat)
    requires Schema(payload, n).Some? && i < n
    ensures var types := Schema(payload, n).value;
            && MsgTyped(types, payload, i)
            && (FullyConforms(types, types["Tx"][|BASE_TX| + i].typ, payload[MsgField(i)]) <==>
                Uniform(payload[MsgField(i)]))
  {
    hide Schema, Conforms, FullyConforms, Uniform, Closed;
    SchemaIsRight(payload, n);
    SchemaNames(payload, n);
    var types := Schema(payload, n).value;
    assert MsgTyped(types, payload, i);
    FullyIff(types, types["Tx"][|BASE_TX| + i].typ, payload[MsgField(i)]);
  }

  /** An array of a number, a text and an object is typed as an array of numbers, which it is not. */
  lemma MixedArray(types: Types)
    requires Closed(types) && NoPrimitiveKey(types) && "TypeMixed0" !in types
    ensures var json := Object(map["xs" := Array([Number, Text("a"), Object(map[])])]);
            var r := Infer(types, "TypeMixed", "_", json);
            && r.key == Some("TypeMixed0") && r.types["TypeMixed0"] == [FieldType("xs", "int64[]")]
            && Conforms(r.types, "TypeMixed0", json) && !FullyConforms(r.types, "TypeMixed0", json)
  {
    hide Conforms, FullyConforms, Closed, Sanitize;
    var xs := Array([Number, Text("a"), Object(map[])]);
    var json := Object(map["xs" := xs]);
    var def := [FieldType("xs", "int64[]")];
    assert "int64" + "[]" == "int64[]" && BasicType(xs) == Some("int64[]");
    DescendingIsUnique(["xs"], json.fields.Keys);
    assert ["xs"][..0] == [];
    assert InferFields(types, "TypeMixed", "_", json, []) == Listed(types, Some([]));
    assert [] + def == def;
    assert InferFields(types, "TypeMixed", "_", json, ["xs"]) == Listed(types, Some(def));
    assert WithIndex("TypeMixed", 0) == "TypeMixed0" by { assert Decimal(0) == "0"; }
    assert Probe(types, "TypeMixed", def, 0) == Some(0);
    InferIsRight(types, "TypeMixed", "_", json);
    InferFitsIff(types, "TypeMixed", "_", json);
    assert !Uniform(json) by {
      assert xs.items[1] == Text("a") && ShapeOf(xs.items[1]) != ShapeOf(xs.items[0]);
      assert !Uniform(xs);
      assert json.fields["xs"] == xs && IsTyped(xs);
    }
  }
}
