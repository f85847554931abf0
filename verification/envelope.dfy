/** Resource envelopes and their entity tags: the digest of a normalized JSON text. */
module Envelope {
  import opened Wrappers
  import opened Text
  import opened ContentLines

  datatype Json =
    | Null
    | Boolean(flag: bool)
    | Number(number: int)
    | Str(text: string)
    | Array(items: Items)
    | Object(fields: Fields)

  datatype Items = NoItems | Item(head: Json, tail: Items)

  datatype Fields = NoFields | Field(name: string, value: Json, rest: Fields)

  /** Line ends become single line feeds in every string value; names are left alone. */
  function Normalize(j: Json): Json {
    match j
    case Str(text) => Str(NormalizeLineEnds(text))
    case Array(items) => Array(NormalizeItems(items))
    case Object(fields) => Object(NormalizeFields(fields))
    case _ => j
  }

  function NormalizeItems(items: Items): Items {
    match items
    case NoItems => NoItems
    case Item(head, tail) => Item(Normalize(head), NormalizeItems(tail))
  }

  function NormalizeFields(fields: Fields): Fields {
    match fields
    case NoFields => NoFields
    case Field(name, value, rest) => Field(name, Normalize(value), NormalizeFields(rest))
  }

  lemma NormalizedLineEndsStay(s: string)
    ensures NormalizeLineEnds(NormalizeLineEnds(s)) == NormalizeLineEnds(s)
  {
    var once := NormalizeLineEnds(s);
    ReplaceRemoves(Replace(s, "\r\n", "\n"), '\r', "\n");
    assert once + "" == once;
    ReplaceSkips(once, "", "\r\n", "\n");
    ReplaceSkips(once, "", "\r", "\n");
  }

  /** Normalizing twice changes nothing more. */
  lemma {:induction false} NormalizeIdempotent(j: Json)
    ensures Normalize(Normalize(j)) == Normalize(j)
  {
    match j
    case Str(text) => NormalizedLineEndsStay(text);
    case Array(items) => NormalizeItemsIdempotent(items);
    case Object(fields) => NormalizeFieldsIdempotent(fields);
    case _ =>
  }

  lemma {:induction false} NormalizeItemsIdempotent(items: Items)
    ensures NormalizeItems(NormalizeItems(items)) == NormalizeItems(items)
  {
    if items.Item? {
      NormalizeIdempotent(items.head);
      NormalizeItemsIdempotent(items.tail);
    }
  }

  lemma {:induction false} NormalizeFieldsIdempotent(fields: Fields)
    ensures NormalizeFields(NormalizeFields(fields)) == NormalizeFields(fields)
  {
    if fields.Field? {
      NormalizeIdempotent(fields.value);
      NormalizeFieldsIdempotent(fields.rest);
    }
  }

  // ----- envelopes --------------------------------------------------------

  datatype Document = Document(version: nat, content: Json, opaqueCalendar: Option<Json>)

  datatype Envelope = Envelope(collectionId: string, resourceId: string, kind: string, objectId: string,
                               davUid: string, document: Document, revision: U64)

  /** Empty after trimming. */
  predicate IsEmptyName(name: string) {
    SolidFrom(name, 0) == |name|
  }

  lemma EmptyNameIs(name: string)
    ensures IsEmptyName(name) <==> Trim(name) == ""
    ensures IsEmptyName(name) <==> forall c :: c in name ==> IsWhitespace(c)
  {
    TrimCuts(name);
    var low := SolidFrom(name, 0);
    SolidFromSkips(name, 0);
    assert low < |name| ==> name[low] in name;
  }

  /** Exactly which envelopes are valid: none of the four ids is blank, and the document is of version 1. */
  lemma EnvelopeAccepted(e: Envelope)
    ensures ValidEnvelope(e) <==>
            !IsBlankText(e.collectionId) && !IsBlankText(e.resourceId) && !IsBlankText(e.objectId) &&
            !IsBlankText(e.davUid) && e.document.version == 1
  {
    hide IsEmptyName, IsBlankText, Trim;
    BlankIsEmpty(e.collectionId);
    BlankIsEmpty(e.resourceId);
    BlankIsEmpty(e.objectId);
    BlankIsEmpty(e.davUid);
  }

  lemma BlankIsEmpty(name: string)
    ensures IsEmptyName(name) <==> IsBlankText(name)
  {
    EmptyNameIs(name);
  }

  predicate ValidEnvelope(e: Envelope) {
    !IsEmptyName(e.collectionId) && !IsEmptyName(e.resourceId) && !IsEmptyName(e.objectId) &&
    !IsEmptyName(e.davUid) && e.document.version == 1
  }

  function DocumentJson(d: Document): Json {
    Object(Field("version", Number(d.version), Field("content", d.content,
      if d.opaqueCalendar.Some? then Field("opaque_calendar", d.opaqueCalendar.value, NoFields) else NoFields)))
  }

  function IdentityFields(e: Envelope, rest: Fields): Fields {
    Field("collection_id", Str(e.collectionId), Field("resource_id", Str(e.resourceId), Field("kind", Str(e.kind), rest)))
  }

  function NameFields(e: Envelope, rest: Fields): Fields {
    Field("anytype_object_id", Str(e.objectId), Field("dav_uid", Str(e.davUid), rest))
  }

  function ContentFields(e: Envelope): Fields {
    Field("document", DocumentJson(e.document), Field("revision", Number(e.revision), NoFields))
  }

  function ToJson(e: Envelope): Json {
    Object(IdentityFields(e, NameFields(e, ContentFields(e))))
  }

  /** The digest of a canonical text. JSON text is taken as lossless and the digest as injective,
      so a tag is the normalized value itself. */
  datatype ETag = ETag(canonical: Json)

  function TagOf(e: Envelope): ETag {
    ETag(Normalize(ToJson(e)))
  }

  function NormalDocument(d: Document): Document {
    Document(d.version, Normalize(d.content),
             if d.opaqueCalendar.Some? then Some(Normalize(d.opaqueCalendar.value)) else None)
  }

  function NormalEnvelope(e: Envelope): Envelope {
    Envelope(NormalizeLineEnds(e.collectionId), NormalizeLineEnds(e.resourceId), NormalizeLineEnds(e.kind),
             NormalizeLineEnds(e.objectId), NormalizeLineEnds(e.davUid), NormalDocument(e.document), e.revision)
  }

  lemma DocumentForm(d: Document)
    ensures Normalize(DocumentJson(d)) == DocumentJson(NormalDocument(d))
  {
    var last := if d.opaqueCalendar.Some? then Field("opaque_calendar", d.opaqueCalendar.value, NoFields) else NoFields;
    var content := Field("content", d.content, last);
    assert NormalizeFields(last).Field? ==> NormalizeFields(last).rest == NoFields;
    assert NormalizeFields(content) == Field("content", Normalize(d.content), NormalizeFields(last));
    assert NormalizeFields(Field("version", Number(d.version), content))
        == Field("version", Number(d.version), NormalizeFields(content));
  }

  lemma ContentForm(e: Envelope)
    ensures NormalizeFields(ContentFields(e)) == ContentFields(NormalEnvelope(e))
  {
    DocumentForm(e.document);
    var last := Field("revision", Number(e.revision), NoFields);
    assert NormalizeFields(last) == last;
  }

  lemma NameForm(e: Envelope, rest: Fields)
    ensures NormalizeFields(NameFields(e, rest)) == NameFields(NormalEnvelope(e), NormalizeFields(rest))
  {
    assert NormalizeFields(Field("dav_uid", Str(e.davUid), rest))
        == Field("dav_uid", Str(NormalizeLineEnds(e.davUid)), NormalizeFields(rest));
  }

  lemma IdentityForm(e: Envelope, rest: Fields)
    ensures NormalizeFields(IdentityFields(e, rest)) == IdentityFields(NormalEnvelope(e), NormalizeFields(rest))
  {
    var kind := Field("kind", Str(e.kind), rest);
    assert NormalizeFields(kind) == Field("kind", Str(NormalizeLineEnds(e.kind)), NormalizeFields(rest));
    assert NormalizeFields(Field("resource_id", Str(e.resourceId), kind))
        == Field("resource_id", Str(NormalizeLineEnds(e.resourceId)), NormalizeFields(kind));
  }

  lemma TagForm(e: Envelope)
    ensures TagOf(e).canonical == ToJson(NormalEnvelope(e))
  {
    ContentForm(e);
    NameForm(e, ContentFields(e));
    IdentityForm(e, NameFields(e, ContentFields(e)));
  }

  /** Two envelopes share a tag exactly when they agree up to line ends in their texts; in
      particular the revision is part of what a tag identifies. */
  lemma TagsAgree(a: Envelope, b: Envelope)
    ensures TagOf(a) == TagOf(b) <==> NormalEnvelope(a) == NormalEnvelope(b)
  {
    TagForm(a);
    TagForm(b);
    JsonIsInjective(NormalEnvelope(a), NormalEnvelope(b));
  }

  lemma JsonIsInjective(a: Envelope, b: Envelope)
    ensures ToJson(a) == ToJson(b) ==> a == b
  {
  }
}
