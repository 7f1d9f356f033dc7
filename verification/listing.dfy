/** The multipart body built by `addAnnonce` in `annonce-service.ts`: a
    listing becomes an ordered sequence of form entries (five text fields,
    five JSON-encoded objects, two JSON-encoded equipment lists, then one
    file part per media). `JSON.stringify` is an encoder passed in with its
    decoder; the HTTP post itself is not modelled. */
module Listing {
  import opened Wrappers
  import FileUpload

  /** The JSON values the form encodes. */
  datatype Json =
    | JNull
    | JBool(b: bool)
    | JNumber(n: int)
    | JString(s: string)
    | JArray(items: seq<Json>)
    | JObject(members: seq<(string, Json)>)

  /** The JSON text encoder (`JSON.stringify`) and a decoder for it. */
  datatype Codec = Codec(stringify: Json -> string, parse: string -> Option<Json>)

  /** A value `JSON.stringify` can render without loss: no object holds the
      same key twice (a parser keeps only the last of repeated keys). */
  predicate WellFormed(j: Json)
    decreases j
  {
    match j
    case JArray(items) => forall k :: 0 <= k < |items| ==> WellFormed(items[k])
    case JObject(members) =>
      (forall a, b :: 0 <= a < b < |members| ==> members[a].0 != members[b].0)
      && forall k :: 0 <= k < |members| ==> WellFormed(members[k].1)
    case _ => true
  }

  /** Decoding recovers every well-formed encoded value. */
  ghost predicate Faithful(c: Codec)
  {
    forall j :: WellFormed(j) ==> c.parse(c.stringify(j)) == Some(j)
  }

  /** One `FormData.append`: a text field, or a file with its file name. */
  datatype Entry =
    | Field(name: string, value: string)
    | FilePart(name: string, file: FileUpload.FileInfo, filename: string)
  {
    /** The entry's field name, whatever its kind. */
    function Name(): string
    {
      match this
      case Field(n, _) => n
      case FilePart(n, _, _) => n
    }
  }

  /** The listing form's value. `kind` is the form's `type` field; the
      equipment lists and the medias may be missing. */
  datatype Ad = Ad(
    title: string,
    description: string,
    statut: string,
    kind: string,
    surface: string,
    contact: Json,
    localisation: Json,
    composition: Json,
    transaction: Json,
    visibilite: Json,
    interior: Option<seq<string>>,
    exterior: Option<seq<string>>,
    medias: Option<seq<FileUpload.FileInfo>>)

  /** The five JSON-encoded parts of a listing are well formed. */
  predicate AdWellFormed(d: Ad)
  {
    WellFormed(d.contact) && WellFormed(d.localisation) && WellFormed(d.composition)
    && WellFormed(d.transaction) && WellFormed(d.visibilite)
  }

  /** The field names of the twelve entries every body starts with, in order. */
  const HeadNames: seq<string> := [
    "title", "description", "statut", "type", "surface",
    "contact", "localisation", "composition", "transaction", "visibilite",
    "equipementsInterieurs", "equipementsExterieurs"]

  const MediasName: string := "medias"

  /** A list of equipment names as a JSON array of strings. */
  function Texts(xs: seq<string>): (r: seq<Json>)
    ensures |r| == |xs|
    ensures forall k :: 0 <= k < |xs| ==> r[k] == JString(xs[k])
  {
    seq(|xs|, k requires 0 <= k < |xs| => JString(xs[k]))
  }

  /** `list || []`: a missing list is the empty list; an empty list stays empty. */
  function ListOrEmpty(xs: Option<seq<string>>): (r: seq<string>)
    ensures xs.Some? ==> r == xs.value
    ensures xs.None? ==> r == []
  {
    xs.GetOr([])
  }

  /** The files that get an entry: none when the list is missing or empty. */
  function MediaList(m: Option<seq<FileUpload.FileInfo>>): (r: seq<FileUpload.FileInfo>)
    ensures m.Some? ==> r == m.value
    ensures m.None? ==> r == []
  {
    if m.Some? && |m.value| > 0 then m.value else []
  }

  /** One file part per media, named `medias`, with the file's own name as file name. */
  function MediaEntries(files: seq<FileUpload.FileInfo>): (r: seq<Entry>)
    ensures |r| == |files|
    ensures forall k :: 0 <= k < |files| ==> r[k] == FilePart(MediasName, files[k], files[k].name)
  {
    seq(|files|, k requires 0 <= k < |files| => FilePart(MediasName, files[k], files[k].name))
  }

  /** `addAnnonce`'s `FormData`, entry by entry. */
  function Build(c: Codec, d: Ad): (r: seq<Entry>)
    ensures |r| == |HeadNames| + |MediaList(d.medias)|
    ensures forall k :: 0 <= k < |HeadNames| ==> r[k].Field? && r[k].Name() == HeadNames[k]
    ensures forall k :: |HeadNames| <= k < |r| ==> r[k].FilePart? && r[k].Name() == MediasName
  {
    [ Field("title", d.title),
      Field("description", d.description),
      Field("statut", d.statut),
      Field("type", d.kind),
      Field("surface", d.surface),
      Field("contact", c.stringify(d.contact)),
      Field("localisation", c.stringify(d.localisation)),
      Field("composition", c.stringify(d.composition)),
      Field("transaction", c.stringify(d.transaction)),
      Field("visibilite", c.stringify(d.visibilite)),
      Field("equipementsInterieurs", c.stringify(JArray(Texts(ListOrEmpty(d.interior))))),
      Field("equipementsExterieurs", c.stringify(JArray(Texts(ListOrEmpty(d.exterior))))) ]
    + MediaEntries(MediaList(d.medias))
  }

  /** `FormData.get`: the value of the first text field with that name. */
  function Get(r: seq<Entry>, name: string): (v: Option<string>)
    ensures v.Some? <==> exists k :: 0 <= k < |r| && r[k].Field? && r[k].name == name
  {
    if r == [] then None
    else if r[0].Field? && r[0].name == name then Some(r[0].value)
    else
      var rest := Get(r[1..], name);
      assert forall k :: 1 <= k < |r| ==> r[k] == r[1..][k - 1];
      rest
  }

  /** `FormData.getAll` restricted to files: the files under that name, in order. */
  function GetFiles(r: seq<Entry>, name: string): (fs: seq<FileUpload.FileInfo>)
    ensures |fs| <= |r|
  {
    if r == [] then []
    else (if r[0].FilePart? && r[0].name == name then [r[0].file] else []) + GetFiles(r[1..], name)
  }

  // ---------------------------------------------------------------------------
  // Reading a body back
  // ---------------------------------------------------------------------------

  /** The JSON array of strings back as a list, if it is one. */
  function Strings(items: seq<Json>): (r: Option<seq<string>>)
    ensures r.Some? ==> |r.value| == |items|
  {
    if items == [] then Some([])
    else if !items[0].JString? then None
    else
      match Strings(items[1..])
      case None => None
      case Some(rest) => Some([items[0].s] + rest)
  }

  /** An equipment field's text decoded as a list of strings. */
  function DecodeList(c: Codec, text: string): Option<seq<string>>
  {
    match c.parse(text)
    case Some(JArray(items)) => Strings(items)
    case _ => None
  }

  /** The file parts of a body's tail, each named `medias` and carrying its own name. */
  function DecodeMedias(r: seq<Entry>): (fs: Option<seq<FileUpload.FileInfo>>)
    ensures fs.Some? ==> |fs.value| == |r|
  {
    if r == [] then Some([])
    else if !(r[0].FilePart? && r[0].name == MediasName && r[0].filename == r[0].file.name) then None
    else
      match DecodeMedias(r[1..])
      case None => None
      case Some(rest) => Some([r[0].file] + rest)
  }

  /** The twelve head entries carry the expected names, in order. */
  predicate HeadShape(r: seq<Entry>)
  {
    |r| >= |HeadNames| && forall k :: 0 <= k < |HeadNames| ==> r[k].Field? && r[k].name == HeadNames[k]
  }

  /** The listing a well-formed body describes: the server's reading of the
      form. Missing lists come back as present (possibly empty) lists. */
  function Decode(c: Codec, r: seq<Entry>): Option<Ad>
  {
    if !HeadShape(r) then None
    else
      var contact := c.parse(r[5].value);
      var localisation := c.parse(r[6].value);
      var composition := c.parse(r[7].value);
      var transaction := c.parse(r[8].value);
      var visibilite := c.parse(r[9].value);
      var interior := DecodeList(c, r[10].value);
      var exterior := DecodeList(c, r[11].value);
      var medias := DecodeMedias(r[|HeadNames|..]);
      if contact.None? || localisation.None? || composition.None? || transaction.None?
         || visibilite.None? || interior.None? || exterior.None? || medias.None?
      then None
      else Some(Ad(r[0].value, r[1].value, r[2].value, r[3].value, r[4].value,
                   contact.value, localisation.value, composition.value, transaction.value, visibilite.value,
                   interior, exterior, medias))
  }

  /** What survives the trip through the form: missing lists become empty ones. */
  function Normal(d: Ad): (n: Ad)
    ensures n.interior.Some? && n.exterior.Some? && n.medias.Some?
  {
    d.(interior := Some(ListOrEmpty(d.interior)),
       exterior := Some(ListOrEmpty(d.exterior)),
       medias := Some(MediaList(d.medias)))
  }

  // ---------------------------------------------------------------------------
  // Properties
  // ---------------------------------------------------------------------------

  /** An equipment list is sent as a well-formed value: an array of strings. */
  lemma TextsWellFormed(xs: seq<string>)
    ensures WellFormed(JArray(Texts(xs)))
  {
  }

  /** Every equipment list survives as a JSON array of strings. */
  lemma {:induction false} StringsOfTexts(xs: seq<string>)
    ensures Strings(Texts(xs)) == Some(xs)
    decreases |xs|
  {
    if xs != [] {
      assert Texts(xs)[1..] == Texts(xs[1..]);
      StringsOfTexts(xs[1..]);
      assert [xs[0]] + xs[1..] == xs;
    }
  }

  /** The file parts read back as the files they were built from. */
  lemma {:induction false} MediasRoundTrip(files: seq<FileUpload.FileInfo>)
    ensures DecodeMedias(MediaEntries(files)) == Some(files)
    decreases |files|
  {
    if files != [] {
      assert MediaEntries(files)[1..] == MediaEntries(files[1..]);
      MediasRoundTrip(files[1..]);
      assert [files[0]] + files[1..] == files;
    }
  }

  /** With a faithful encoder, reading the body back gives the listing, with
      missing equipment and media lists read as empty ones. */
  lemma BuildThenDecode(c: Codec, d: Ad)
    requires Faithful(c) && AdWellFormed(d)
    ensures Decode(c, Build(c, d)) == Some(Normal(d))
  {
    var r := Build(c, d);
    TextsWellFormed(ListOrEmpty(d.interior));
    TextsWellFormed(ListOrEmpty(d.exterior));
    StringsOfTexts(ListOrEmpty(d.interior));
    StringsOfTexts(ListOrEmpty(d.exterior));
    assert c.parse(r[10].value) == Some(JArray(Texts(ListOrEmpty(d.interior))));
    assert c.parse(r[11].value) == Some(JArray(Texts(ListOrEmpty(d.exterior))));
    assert r[|HeadNames|..] == MediaEntries(MediaList(d.medias));
    MediasRoundTrip(MediaList(d.medias));
  }

  /** Two listings that differ after normalisation never give the same body. */
  lemma BuildInjective(c: Codec, d: Ad, e: Ad)
    requires Faithful(c) && AdWellFormed(d) && AdWellFormed(e)
    requires Build(c, d) == Build(c, e)
    ensures Normal(d) == Normal(e)
  {
    BuildThenDecode(c, d);
    BuildThenDecode(c, e);
  }

  /** The listing's plain text fields, in the order the body carries them:
      title, description, statut, type and surface. */
  function Scalars(d: Ad): seq<string>
  {
    [d.title, d.description, d.statut, d.kind, d.surface]
  }

  /** The text fields come first, under their own names, and each reads back as given. */
  lemma ScalarsFirst(c: Codec, d: Ad)
    ensures HeadNames[..|Scalars(d)|] == ["title", "description", "statut", "type", "surface"]
    ensures forall k :: 0 <= k < |Scalars(d)| ==> Get(Build(c, d), HeadNames[k]) == Some(Scalars(d)[k])
  {
    forall k | 0 <= k < |Scalars(d)|
      ensures Get(Build(c, d), HeadNames[k]) == Some(Scalars(d)[k])
    {
      GetHead(c, d, k);
    }
  }

  /** A head field whose name no earlier head field carries reads back as its own value. */
  lemma GetHead(c: Codec, d: Ad, k: nat)
    requires k < |HeadNames| && forall j :: 0 <= j < k ==> HeadNames[j] != HeadNames[k]
    ensures Get(Build(c, d), HeadNames[k]) == Some(Build(c, d)[k].value)
  {
    var r := Build(c, d);
    forall j | 0 <= j < k
      ensures !(r[j].Field? && r[j].name == HeadNames[k])
    {
      assert r[j].Name() == HeadNames[j];
    }
    assert r[k].Name() == HeadNames[k];
    GetFirst(r, k, HeadNames[k]);
  }

  /** `get` returns the value of the first text field carrying the name. */
  lemma {:induction false} GetFirst(r: seq<Entry>, k: nat, name: string)
    requires k < |r| && r[k].Field? && r[k].name == name
    requires forall j :: 0 <= j < k ==> !(r[j].Field? && r[j].name == name)
    ensures Get(r, name) == Some(r[k].value)
    decreases k
  {
    if k > 0 {
      assert !(r[0].Field? && r[0].name == name);
      GetFirst(r[1..], k - 1, name);
    }
  }

  /** A missing equipment list is sent as the JSON of the empty list, the
      same text an explicitly empty list gives. */
  lemma MissingEquipmentIsEmptyList(c: Codec, d: Ad)
    requires d.interior.None? || d.interior == Some([])
    requires d.exterior.None? || d.exterior == Some([])
    ensures Build(c, d)[10] == Field("equipementsInterieurs", c.stringify(JArray([])))
    ensures Build(c, d)[11] == Field("equipementsExterieurs", c.stringify(JArray([])))
  {
  }

  /** The files under `medias` are the listing's medias, in order; a missing
      or empty list sends none, so the body has twelve entries plus one per file. */
  lemma {:induction false} MediasInOrder(c: Codec, d: Ad)
    ensures GetFiles(Build(c, d), MediasName) == MediaList(d.medias)
    ensures |Build(c, d)| == 12 + (if d.medias.Some? then |d.medias.value| else 0)
  {
    var r := Build(c, d);
    HeadHasNoFiles(r[..|HeadNames|], r[|HeadNames|..]);
    assert r == r[..|HeadNames|] + r[|HeadNames|..];
    FilesOfMediaEntries(MediaList(d.medias));
  }

  /** Text fields add nothing to the files of a body. */
  lemma {:induction false} HeadHasNoFiles(head: seq<Entry>, tail: seq<Entry>)
    requires forall k :: 0 <= k < |head| ==> head[k].Field?
    ensures GetFiles(head + tail, MediasName) == GetFiles(tail, MediasName)
    decreases |head|
  {
    if head == [] {
      assert head + tail == tail;
    } else {
      assert (head + tail)[1..] == head[1..] + tail;
      assert (head + tail)[0] == head[0];
      HeadHasNoFiles(head[1..], tail);
    }
  }

  /** The media entries hold exactly the given files. */
  lemma {:induction false} FilesOfMediaEntries(files: seq<FileUpload.FileInfo>)
    ensures GetFiles(MediaEntries(files), MediasName) == files
    decreases |files|
  {
    if files != [] {
      assert MediaEntries(files)[1..] == MediaEntries(files[1..]);
      FilesOfMediaEntries(files[1..]);
      assert [files[0]] + files[1..] == files;
    }
  }
}
