/**
 * `translate_elements` (src/translator.py): a translated copy of a list of
 * taxonomy nodes in which only the natural-language fields are rewritten.
 * The machine-translation model is the parameter `translate`, standing for
 * `translator.translate(text)[0]`.
 */
module Translator {
  import opened Wrappers
  import opened Json
  import opened Traverse

  /** The language tag written into every translated text. */
  const TargetLanguage: string := "da"

  /** Fields holding one text record `{"@value": text, ...}`. */
  const ScalarTextKeys: set<string> :=
    {"title", "description", "longDefinition", "fullySpecifiedName", "codingNote"}

  /** Fields holding a list of labelled records with a foundation reference. */
  const LabelledRefKeys: set<string> := {"foundationChildElsewhere", "exclusion"}

  /** Fields holding a list of labelled records. */
  const LabelledKeys: set<string> := {"inclusion", "indexTerm"}

  /** Every field that is rewritten; all others are copied verbatim. */
  const TranslatedKeys: set<string> := ScalarTextKeys + LabelledRefKeys + LabelledKeys

  /** `{"language": "da", "value": text}`. */
  function Tagged(text: string): Json {
    JObj([("language", JStr(TargetLanguage)), ("value", JStr(text))])
  }

  /** The tagged translation of a text record: `{"language": "da", "value": translate(v["@value"])}`. */
  function TranslatedText(v: Json, translate: string -> string): Result<Json, PyError> {
    var text :- Subscript(v, "@value");
    if text.JStr? then Ok(Tagged(translate(text.s))) else Err(TypeError)
  }

  /** An item of a `foundationChildElsewhere` or `exclusion` list, translated. */
  function TranslatedRefChild(child: Json, translate: string -> string): Result<Json, PyError> {
    var labelRecord :- Subscript(child, "label");
    var tagged :- TranslatedText(labelRecord, translate);
    var foundation :- Subscript(child, "foundationReference");
    var linearization := Lookup(child.fields, "linearizationReference").GetOr(JNull);
    Ok(JObj([("label", tagged), ("foundationReference", foundation), ("linearizationReference", linearization)]))
  }

  /** An item of an `inclusion` or `indexTerm` list, translated; its other fields are dropped. */
  function TranslatedLabelChild(child: Json, translate: string -> string): Result<Json, PyError> {
    var labelRecord :- Subscript(child, "label");
    var tagged :- TranslatedText(labelRecord, translate);
    Ok(JObj([("label", tagged)]))
  }

  /** `TranslatedRefChild` as the function the list loop applies. */
  function RefChildTranslator(translate: string -> string): Json -> Result<Json, PyError> {
    c => TranslatedRefChild(c, translate)
  }

  /** `TranslatedLabelChild` as the function the list loop applies. */
  function LabelChildTranslator(translate: string -> string): Json -> Result<Json, PyError> {
    c => TranslatedLabelChild(c, translate)
  }

  /** `[f(child) for child in value]` as a list, or the first exception. */
  function TranslateList(value: Json, f: Json -> Result<Json, PyError>): (r: Result<Json, PyError>)
    ensures r.Ok? <==> Iterate(value).Ok? && MapAll(Iterate(value).value, f).Ok?
    ensures r.Ok? ==> r.value == JArr(MapAll(Iterate(value).value, f).value)
  {
    var children :- Iterate(value);
    var translated :- MapAll(children, f);
    Ok(JArr(translated))
  }

  /** The new value of the field `key`. */
  function TranslateField(key: string, value: Json, translate: string -> string): Result<Json, PyError> {
    if key in ScalarTextKeys then TranslatedText(value, translate)
    else if key in LabelledRefKeys then TranslateList(value, RefChildTranslator(translate))
    else if key in LabelledKeys then TranslateList(value, LabelChildTranslator(translate))
    else Ok(value)
  }

  /** One entry of a node, translated under the same key. */
  function TranslateEntry(entry: (string, Json), translate: string -> string): Result<(string, Json), PyError> {
    var value :- TranslateField(entry.0, entry.1, translate);
    Ok((entry.0, value))
  }

  /** One node, translated entry by entry. */
  function TranslateElement(element: Obj, translate: string -> string): Result<Obj, PyError> {
    MapAll(element, e => TranslateEntry(e, translate))
  }

  /** The reference semantics of `translate_elements`. */
  function TranslateAll(data: seq<Obj>, translate: string -> string): Result<seq<Obj>, PyError> {
    MapAll(data, e => TranslateElement(e, translate))
  }

  /** The body of the field loop of `translate_elements`: the new value of one field, with the source's list loop. */
  method TranslateValue(key: string, value: Json, translate: string -> string) returns (r: Result<Json, PyError>)
    ensures r == TranslateField(key, value, translate)
  {
    if key in ScalarTextKeys {
      return TranslatedText(value, translate);
    } else if key in LabelledRefKeys || key in LabelledKeys {
      var fChild := if key in LabelledRefKeys then RefChildTranslator(translate) else LabelChildTranslator(translate);
      var children := Iterate(value);
      if children.Err? {
        return Err(children.error);
      }
      var translatedChildren: seq<Json> := [];
      for k := 0 to |children.value|
        invariant MapAll(children.value[..k], fChild) == Ok(translatedChildren)
      {
        var child := children.value[k];
        var newChild: Json;
        var labelRecord := Subscript(child, "label");
        var tagged := if labelRecord.Ok? then TranslatedText(labelRecord.value, translate) else Err(labelRecord.error);
        if tagged.Err? {
          MapAllStep(children.value, fChild, k, translatedChildren);
          return Err(tagged.error);
        }
        if key in LabelledRefKeys {
          var foundation := Subscript(child, "foundationReference");
          if foundation.Err? {
            MapAllStep(children.value, fChild, k, translatedChildren);
            return Err(foundation.error);
          }
          var linearization := if "linearizationReference" in Keys(child.fields)
                               then Lookup(child.fields, "linearizationReference").value else JNull;
          newChild := JObj([("label", tagged.value), ("foundationReference", foundation.value),
                            ("linearizationReference", linearization)]);
        } else {
          newChild := JObj([("label", tagged.value)]);
        }
        MapAllStep(children.value, fChild, k, translatedChildren);
        translatedChildren := translatedChildren + [newChild];
      }
      assert children.value[..|children.value|] == children.value;
      return Ok(JArr(translatedChildren));
    } else {
      return Ok(value);
    }
  }

  /** `translate_elements`, with the source's loops over the nodes and their fields. */
  method TranslateElements(data: seq<Obj>, translate: string -> string) returns (r: Result<seq<Obj>, PyError>)
    ensures r == TranslateAll(data, translate)
  {
    var fElement := e => TranslateElement(e, translate);
    var translatedData: seq<Obj> := [];
    for i := 0 to |data|
      invariant MapAll(data[..i], fElement) == Ok(translatedData)
    {
      var element := data[i];
      var fEntry := e => TranslateEntry(e, translate);
      var translatedElement: Obj := [];
      for j := 0 to |element|
        invariant MapAll(element[..j], fEntry) == Ok(translatedElement)
      {
        var (key, value) := element[j];
        var newValue := TranslateValue(key, value, translate);
        MapAllStep(element, fEntry, j, translatedElement);
        if newValue.Err? {
          MapAllStep(data, fElement, i, translatedData);
          return Err(newValue.error);
        }
        translatedElement := translatedElement + [(key, newValue.value)];
      }
      assert element[..|element|] == element;
      MapAllStep(data, fElement, i, translatedData);
      translatedData := translatedData + [translatedElement];
    }
    assert data[..|data|] == data;
    r := Ok(translatedData);
  }

  // ---------------------------------------------------------------------
  // What a translated field looks like, stated on the input's own shape.

  /** The text of a record `{"@value": text, ...}`, if it has one. */
  function TextOf(v: Json): Option<string> {
    if v.JObj? then
      match Lookup(v.fields, "@value")
      case Some(JStr(s)) => Some(s)
      case _ => None
    else None
  }

  /** The text of a list item's label `{"label": {"@value": text, ...}, ...}`, if it has one. */
  function LabelTextOf(child: Json): Option<string> {
    if child.JObj? then
      match Lookup(child.fields, "label")
      case Some(l) => TextOf(l)
      case None => None
    else None
  }

  /** `out` is the translation of a labelled item with references. */
  ghost predicate IsTranslatedRefChild(child: Json, out: Json, translate: string -> string) {
    && LabelTextOf(child).Some?
    && "foundationReference" in Keys(child.fields)
    && out == JObj([
         ("label", Tagged(translate(LabelTextOf(child).value))),
         ("foundationReference", Lookup(child.fields, "foundationReference").value),
         ("linearizationReference", Lookup(child.fields, "linearizationReference").GetOr(JNull))])
  }

  /** `out` is the translation of a labelled item: its label only. */
  ghost predicate IsTranslatedLabelChild(child: Json, out: Json, translate: string -> string) {
    LabelTextOf(child).Some? && out == JObj([("label", Tagged(translate(LabelTextOf(child).value)))])
  }

  /** The field's value is a text record, and `out` is the tagged translation of its text. */
  lemma TranslatedTextSpec(v: Json, translate: string -> string)
    ensures TranslatedText(v, translate).Ok? <==> TextOf(v).Some?
    ensures TranslatedText(v, translate).Ok? ==> TranslatedText(v, translate).value == Tagged(translate(TextOf(v).value))
    ensures v.JObj? && "@value" !in Keys(v.fields) ==> TranslatedText(v, translate) == Err(KeyError("@value"))
  {
  }

  /** A field outside the classified keys is copied verbatim. */
  lemma PassThroughField(key: string, value: Json, translate: string -> string)
    requires key !in TranslatedKeys
    ensures TranslateField(key, value, translate) == Ok(value)
  {
  }

  /** A scalar text field becomes the tagged translation of its text, and fails exactly when it has no text. */
  lemma ScalarFieldSpec(key: string, value: Json, translate: string -> string)
    requires key in ScalarTextKeys
    ensures TranslateField(key, value, translate).Ok? <==> TextOf(value).Some?
    ensures TranslateField(key, value, translate).Ok? ==>
      TranslateField(key, value, translate).value == Tagged(translate(TextOf(value).value))
    ensures value.JObj? && "@value" !in Keys(value.fields) ==>
      TranslateField(key, value, translate) == Err(KeyError("@value"))
  {
    TranslatedTextSpec(value, translate);
  }

  /** A well-formed item of a labelled list with references. */
  predicate IsRefItem(child: Json) {
    LabelTextOf(child).Some? && "foundationReference" in Keys(child.fields)
  }

  /**
   * A labelled list with references becomes a list of the same length whose
   * items are translated one by one; it fails exactly when the value is not
   * iterable or some item lacks its label text or foundation reference.
   */
  lemma RefListSpec(key: string, value: Json, translate: string -> string)
    requires key in LabelledRefKeys
    ensures TranslateField(key, value, translate).Ok? <==>
      Iterate(value).Ok? && forall k :: 0 <= k < |Iterate(value).value| ==> IsRefItem(Iterate(value).value[k])
    ensures TranslateField(key, value, translate).Ok? ==>
      var items, out := Iterate(value).value, TranslateField(key, value, translate).value;
      out.JArr? && |out.items| == |items| &&
      forall k :: 0 <= k < |items| ==> IsTranslatedRefChild(items[k], out.items[k], translate)
  {
    var f := RefChildTranslator(translate);
    assert TranslateField(key, value, translate) == TranslateList(value, f);
    if Iterate(value).Ok? {
      var items := Iterate(value).value;
      forall k | 0 <= k < |items| ensures f(items[k]).Ok? <==> IsRefItem(items[k]) {
        RefChildSpec(items[k], translate);
      }
      MapAllSucceeds(items, f);
      if MapAll(items, f).Ok? {
        var out := MapAll(items, f).value;
        MapAllOk(items, f, out);
        forall k | 0 <= k < |items| ensures IsTranslatedRefChild(items[k], out[k], translate) {
          RefChildSpec(items[k], translate);
        }
      }
    }
  }

  /**
   * A labelled list becomes a list of the same length holding only the
   * translated labels; it fails exactly when the value is not iterable or
   * some item lacks its label text.
   */
  lemma LabelListSpec(key: string, value: Json, translate: string -> string)
    requires key in LabelledKeys
    ensures TranslateField(key, value, translate).Ok? <==>
      Iterate(value).Ok? && forall k :: 0 <= k < |Iterate(value).value| ==> LabelTextOf(Iterate(value).value[k]).Some?
    ensures TranslateField(key, value, translate).Ok? ==>
      var items, out := Iterate(value).value, TranslateField(key, value, translate).value;
      out.JArr? && |out.items| == |items| &&
      forall k :: 0 <= k < |items| ==> IsTranslatedLabelChild(items[k], out.items[k], translate)
  {
    var f := LabelChildTranslator(translate);
    assert TranslateField(key, value, translate) == TranslateList(value, f);
    if Iterate(value).Ok? {
      var items := Iterate(value).value;
      forall k | 0 <= k < |items| ensures f(items[k]).Ok? <==> LabelTextOf(items[k]).Some? {
        LabelChildSpec(items[k], translate);
      }
      MapAllSucceeds(items, f);
      if MapAll(items, f).Ok? {
        var out := MapAll(items, f).value;
        MapAllOk(items, f, out);
        forall k | 0 <= k < |items| ensures IsTranslatedLabelChild(items[k], out[k], translate) {
          LabelChildSpec(items[k], translate);
        }
      }
    }
  }

  /** An item of a labelled list is translated exactly when it has a label text; all its other fields are dropped. */
  lemma LabelChildSpec(child: Json, translate: string -> string)
    ensures TranslatedLabelChild(child, translate).Ok? <==> LabelTextOf(child).Some?
    ensures TranslatedLabelChild(child, translate).Ok? ==>
      IsTranslatedLabelChild(child, TranslatedLabelChild(child, translate).value, translate)
  {
  }

  /** An item of a labelled-with-references list is translated exactly when it has a label text and a foundation reference. */
  lemma RefChildSpec(child: Json, translate: string -> string)
    ensures TranslatedRefChild(child, translate).Ok? <==>
      LabelTextOf(child).Some? && "foundationReference" in Keys(child.fields)
    ensures TranslatedRefChild(child, translate).Ok? ==>
      IsTranslatedRefChild(child, TranslatedRefChild(child, translate).value, translate)
  {
  }

  /**
   * A node is translated entry by entry: the result has the same keys in the
   * same order, each value is its field's translation, and distinct keys
   * stay distinct.
   */
  lemma {:induction false} TranslateElementSpec(element: Obj, translate: string -> string)
    ensures TranslateElement(element, translate).Ok? <==>
      forall j :: 0 <= j < |element| ==> TranslateField(element[j].0, element[j].1, translate).Ok?
    ensures TranslateElement(element, translate).Ok? ==>
      var out := TranslateElement(element, translate).value;
      && Keys(out) == Keys(element)
      && (forall j :: 0 <= j < |element| ==> Ok(out[j].1) == TranslateField(element[j].0, element[j].1, translate))
      && (DistinctKeys(element) ==> DistinctKeys(out))
  {
    var f := e => TranslateEntry(e, translate);
    MapAllErr(element, f);
    if TranslateElement(element, translate).Ok? {
      var out := TranslateElement(element, translate).value;
      MapAllOk(element, f, out);
      assert Keys(out) == Keys(element);
    }
  }

  /** The output list has the input's length and order, and its i-th node is the translation of the i-th input node alone. */
  lemma TranslateAllOk(data: seq<Obj>, translate: string -> string, out: seq<Obj>)
    ensures TranslateAll(data, translate) == Ok(out) <==>
      |out| == |data| && forall i :: 0 <= i < |data| ==> TranslateElement(data[i], translate) == Ok(out[i])
  {
    MapAllOk(data, e => TranslateElement(e, translate), out);
  }

  /** A malformed node aborts the whole call, with the error of the first malformed node. */
  lemma TranslateAllErr(data: seq<Obj>, translate: string -> string)
    ensures TranslateAll(data, translate).Err? <==>
      exists i :: 0 <= i < |data| && TranslateElement(data[i], translate).Err?
    ensures TranslateAll(data, translate).Err? ==>
      exists i :: 0 <= i < |data| && TranslateElement(data[i], translate) == Err(TranslateAll(data, translate).error)
               && forall j :: 0 <= j < i ==> TranslateElement(data[j], translate).Ok?
  {
    MapAllErr(data, e => TranslateElement(e, translate));
  }

  /**
   * Across the whole call: the j-th field of the i-th output node keeps the
   * j-th input key and holds that field's translation, which for a key
   * outside the classified ones is the input value itself.
   */
  lemma TranslatedFieldAt(data: seq<Obj>, translate: string -> string, i: nat, j: nat)
    requires TranslateAll(data, translate).Ok?
    requires i < |data| && j < |data[i]|
    ensures var out := TranslateAll(data, translate).value;
      && |out| == |data| && |out[i]| == |data[i]|
      && Keys(out[i]) == Keys(data[i])
      && out[i][j].0 == data[i][j].0
      && TranslateField(data[i][j].0, data[i][j].1, translate) == Ok(out[i][j].1)
      && (data[i][j].0 !in TranslatedKeys ==> out[i][j] == data[i][j])
  {
    var out := TranslateAll(data, translate).value;
    TranslateAllOk(data, translate, out);
    TranslateElementSpec(data[i], translate);
    assert Keys(out[i])[j] == Keys(data[i])[j];
    if data[i][j].0 !in TranslatedKeys {
      PassThroughField(data[i][j].0, data[i][j].1, translate);
    }
  }

  /** One field whose expected sub-key is missing (or of the wrong type) makes the whole call fail. */
  lemma MalformedFieldAborts(data: seq<Obj>, translate: string -> string, i: nat, j: nat)
    requires i < |data| && j < |data[i]|
    requires TranslateField(data[i][j].0, data[i][j].1, translate).Err?
    ensures TranslateAll(data, translate).Err?
  {
    TranslateElementSpec(data[i], translate);
    TranslateAllErr(data, translate);
  }

  /** `{title: {"@value": "Hello"}, foo: 42}` becomes `{title: {language: "da", value: "Hej"}, foo: 42}`. */
  lemma TitleExample(translate: string -> string)
    requires translate("Hello") == "Hej"
    ensures TranslateAll([[("title", JObj([("@value", JStr("Hello"))])), ("foo", JNum(42))]], translate)
         == Ok([[("title", Tagged("Hej")), ("foo", JNum(42))]])
  {
    var element: Obj := [("title", JObj([("@value", JStr("Hello"))])), ("foo", JNum(42))];
    var out: Obj := [("title", Tagged("Hej")), ("foo", JNum(42))];
    assert "foo" !in TranslatedKeys;
    ScalarFieldSpec("title", element[0].1, translate);
    PassThroughField("foo", element[1].1, translate);
    TranslateElementSpec(element, translate);
    MapAllOk(element, e => TranslateEntry(e, translate), out);
    TranslateAllOk([element], translate, [out]);
  }

  /** An exclusion item without a linearization reference gets an explicit null one. */
  lemma ExclusionExample(translate: string -> string)
    ensures TranslateField("exclusion", JArr([JObj([("label", JObj([("@value", JStr("X"))])), ("foundationReference", JStr("r1"))])]), translate)
         == Ok(JArr([JObj([("label", Tagged(translate("X"))), ("foundationReference", JStr("r1")), ("linearizationReference", JNull)])]))
  {
    var child := JObj([("label", JObj([("@value", JStr("X"))])), ("foundationReference", JStr("r1"))]);
    assert LabelTextOf(child) == Some("X");
    assert Lookup(child.fields, "foundationReference") == Some(JStr("r1"));
    assert Lookup(child.fields, "linearizationReference") == None;
    assert IsRefItem(child);
    RefListSpec("exclusion", JArr([child]), translate);
    var out := TranslateField("exclusion", JArr([child]), translate).value;
    assert out.items == [out.items[0]];
  }

  /** A title record without "@value" aborts the call with KeyError. */
  lemma MissingValueExample(translate: string -> string)
    ensures TranslateAll([[("title", JObj([("lang", JStr("en"))]))]], translate) == Err(KeyError("@value"))
  {
    var element: Obj := [("title", JObj([("lang", JStr("en"))]))];
    assert Keys([("lang", JStr("en"))]) == ["lang"];
    ScalarFieldSpec("title", element[0].1, translate);
    MapAllStep(element, e => TranslateEntry(e, translate), 0, []);
    MapAllStep([element], e => TranslateElement(e, translate), 0, []);
  }
}
