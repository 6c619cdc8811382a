/** The native `.pp` project object at the parsed level: the export both
    renderers build, and the acceptance rule of each renderer's import. */
module Project {
  import opened Wrappers
  import opened Actions

  /** A parsed JSON value. Arrays appear only as lists of paint actions. */
  datatype Value =
    | Null
    | Bool(b: bool)
    | Num(n: int)
    | Str(s: string)
    | List(items: seq<Action>)
    | Obj(fields: map<string, Value>)

  const FormatTag: string := "PixelPainterPP v1"

  /** JavaScript truthiness; `None` stands for `undefined`. */
  predicate Truthy(v: Option<Value>)
  {
    match v
    case None => false
    case Some(Null) => false
    case Some(Bool(b)) => b
    case Some(Num(n)) => n != 0
    case Some(Str(s)) => s != ""
    case Some(List(_)) => true
    case Some(Obj(_)) => true
  }

  /** Property access `v.key` on a non-null value: absent keys and non-objects give `undefined`. */
  function Get(v: Value, key: string): (r: Option<Value>)
    requires !v.Null?
    ensures r.Some? ==> v.Obj? && key in v.fields && r.value == v.fields[key]
  {
    if v.Obj? && key in v.fields then Some(v.fields[key]) else None
  }

  /** `{format: 'PixelPainterPP v1', pixels: history}` */
  function ExportPP(history: seq<Action>): Value
  {
    Obj(map["format" := Str(FormatTag), "pixels" := List(history)])
  }

  /** Why an import was refused: the parse threw (or `null.format` did), or the object was rejected. */
  datatype Failure = LoadFailed | InvalidFile

  /** The outcome of an import. `AcceptedNonList` is the web renderer taking a
      truthy `pixels` that is not an array. */
  datatype Verdict = Rejected(why: Failure) | Accepted(pixels: seq<Action>) | AcceptedNonList(value: Value)

  /** The web renderer's rule: any truthy `format` and any truthy `pixels`. The
      parse result is `None` when `JSON.parse` threw. */
  function WebImport(parsed: Option<Value>): (v: Verdict)
    ensures v.Accepted? ==>
              parsed.Some? && parsed.value.Obj? && "pixels" in parsed.value.fields &&
              parsed.value.fields["pixels"] == List(v.pixels)
    ensures v.Rejected? <==> (parsed.None? || parsed.value.Null? ||
      !(Truthy(Get(parsed.value, "format")) && Truthy(Get(parsed.value, "pixels"))))
    ensures parsed.Some? && parsed.value.Obj? && Truthy(Get(parsed.value, "format")) &&
            Get(parsed.value, "pixels").Some? && Get(parsed.value, "pixels").value.List? ==>
              v == Accepted(Get(parsed.value, "pixels").value.items)
    ensures v.AcceptedNonList? ==>
              parsed.Some? && Get(parsed.value, "pixels") == Some(v.value) && !v.value.List?
  {
    match parsed
    case None => Rejected(LoadFailed)
    case Some(obj) =>
      if obj.Null? then Rejected(LoadFailed)
      else
        var format, pixels := Get(obj, "format"), Get(obj, "pixels");
        if Truthy(format) && Truthy(pixels) then
          if pixels.value.List? then Accepted(pixels.value.items) else AcceptedNonList(pixels.value)
        else Rejected(InvalidFile)
  }

  /** The desktop renderer's rule: `format` exactly `'PixelPainterPP v1'` and
      `pixels` an array. */
  function DesktopImport(parsed: Option<Value>): (v: Verdict)
    ensures !v.AcceptedNonList?
    ensures v.Accepted? <==>
              (parsed.Some? && !parsed.value.Null? &&
               Get(parsed.value, "format") == Some(Str(FormatTag)) &&
               Get(parsed.value, "pixels").Some? && Get(parsed.value, "pixels").value.List?)
    ensures v.Accepted? ==> parsed.value.fields["pixels"] == List(v.pixels)
  {
    match parsed
    case None => Rejected(LoadFailed)
    case Some(obj) =>
      if obj.Null? then Rejected(LoadFailed)
      else
        var pixels := Get(obj, "pixels");
        if Get(obj, "format") == Some(Str(FormatTag)) && pixels.Some? && pixels.value.List? then
          Accepted(pixels.value.items)
        else Rejected(InvalidFile)
  }

  /** Exporting a history and importing the object gives the same history back,
      in either renderer. */
  lemma ExportImportRoundTrip(history: seq<Action>)
    ensures DesktopImport(Some(ExportPP(history))) == Accepted(history)
    ensures WebImport(Some(ExportPP(history))) == Accepted(history)
  {
    var obj := ExportPP(history);
    assert Get(obj, "format") == Some(Str(FormatTag));
    assert Get(obj, "pixels") == Some(List(history));
  }

  /** The desktop import is the stricter one: whatever it accepts, the web
      import accepts with the same actions. */
  lemma DesktopStricterThanWeb(parsed: Option<Value>)
    ensures DesktopImport(parsed).Accepted? ==> WebImport(parsed) == DesktopImport(parsed)
  {
  }

  /** A project tagged with another format string is refused by the desktop
      import and taken by the web import. */
  lemma OtherFormatTagDiffers(history: seq<Action>)
    ensures var obj := Obj(map["format" := Str("PixelPainterPP v2"), "pixels" := List(history)]);
      DesktopImport(Some(obj)) == Rejected(InvalidFile) && WebImport(Some(obj)) == Accepted(history)
  {
    var obj := Obj(map["format" := Str("PixelPainterPP v2"), "pixels" := List(history)]);
    assert Get(obj, "format") == Some(Str("PixelPainterPP v2"));
    assert Str("PixelPainterPP v2") != Str(FormatTag) by {
      assert "PixelPainterPP v2"[16] != FormatTag[16];
    }
    assert Get(obj, "pixels") == Some(List(history));
  }
}
