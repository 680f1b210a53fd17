/** Writing a document and reading it back: what components/json/json.c promises as a whole. */
module JsonRoundTrip {
  import opened Bytes
  import opened JsonText
  import opened JsonScan
  import opened JsonFind
  import opened JsonPrinted
  import JsonReader
  import JsonWriter

  /** Each member of an object found by its name, and each element of an array by its place, as written. */
  ghost predicate PartsReadBack(v: Json)
    requires v.Container?
  {
    var s := Print(v);
    if v.isObject then forall key :: Located(s, Find(s, key), Lookup(v.items, key))
    else ArrayLength(s) == LengthOf(v.items) && forall n: nat :: Located(s, ElementAt(s, n), Nth(v.items, n))
  }

  /** Reading a value that was written gives the value, whatever its kind, and so for all its parts. */
  lemma ValuesRoundTrip(v: Json)
    requires Writable(v) && Nesting(v) <= MAX_DEPTH
    ensures ValidText(Print(v)) && KindOf(Print(v)[0]) == KindOfValue(v)
    ensures v.Null? <==> KindOf(Print(v)[0]) == KindNull
    ensures v.Bool? ==> GetBool(Print(v)) == Some(v.b)
    ensures v.Int? ==> GetInt(Print(v)) == Some(v.i)
    ensures v.Str? ==> forall size: nat :: GetString(Print(v), size) == if size > |v.text| then Some(v.text) else None
    ensures v.Container? ==> PartsReadBack(v)
  {
    hide ValidText, GetInt, GetString, Find, KindOf, Quoted, IntText, PrintItems, Nesting, Lookup, ElementAt, ArrayLength, Nth;
    PrintedIsValidIff(v);
    PrintedKind(v);
    match v
    case Null =>
    case Bool(b) => BoolRoundTrip(b);
    case Int(i) => GetIntRoundTrip(i);
    case Str(text) =>
      forall size: nat ensures GetString(Print(v), size) == if size > |text| then Some(text) else None {
        GetStringRoundTrip(text, size);
      }
    case Container(isObject, items) =>
      PartsRoundTrip(v);
  }

  lemma BoolRoundTrip(b: bool)
    ensures GetBool(Print(Bool(b))) == Some(b)
  {
  }

  lemma PartsRoundTrip(v: Json)
    requires v.Container? && Nesting(v) <= MAX_DEPTH
    ensures PartsReadBack(v)
  {
    hide Find, Print, PrintItems, Nesting, Lookup, ElementAt, ArrayLength, Nth, Located;
    var s := Print(v);
    if v.isObject {
      forall key ensures Located(s, Find(s, key), Lookup(v.items, key)) {
        PrintedFound(v.items, key);
      }
    } else {
      forall n: nat ensures ArrayLength(s) == LengthOf(v.items) && Located(s, ElementAt(s, n), Nth(v.items, n)) {
        PrintedElements(v.items, n);
      }
      PrintedElements(v.items, 0);
    }
  }

  /** Where a written string lies, the slice found for it keeps both its quotes. */
  lemma FoundStringIsQuoted(items: Items, key: string, text: string)
    requires Nesting(Container(true, items)) <= MAX_DEPTH && Lookup(items, key) == Some(Str(text))
    ensures var s := Print(Container(true, items));
            Find(s, key).Some? &&
            var f := Find(s, key).value;
            f.kind == KindString && s[f.start..f.start + f.length] == Quoted(text)
  {
    hide Find, Quoted, PrintItems, Nesting, Lookup;
    PrintedFound(items, key);
  }

  /**
   * A whole exchange: an object written into a buffer and one of its members asked for. The
   * writer succeeds exactly when the text fits; the member found is the first of its name.
   */
  method Exchange(items: Items, size: nat, key: string) returns (ok: bool, member: Option<seq<char>>)
    requires Writable(Container(true, items)) && Nesting(Container(true, items)) <= MAX_DEPTH
    ensures ok <==> |Print(Container(true, items))| < size
    ensures ok ==> match Lookup(items, key)
                   case None => member == None
                   case Some(v) => member == Some(Print(v))
  {
    hide Print, Nesting, Writable, Find, Lookup;
    var text;
    ok, text := JsonWriter.WriteDocument(Container(true, items), size);
    member := None;
    if ok {
      PrintedFound(items, key);
      var found := JsonReader.JsonFindN(text, key);
      if found.Some? {
        member := Some(text[found.value.start..found.value.start + found.value.length]);
      }
    }
  }
}
