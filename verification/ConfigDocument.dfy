/** The document in `config.toml` and what one patch makes of it. */
module ConfigDocument {
  import opened Options

  /** A TOML value; everything that is not a table is a leaf. */
  datatype Value = Table(fields: map<string, Value>) | Leaf(text: string)

  type Fields = map<string, Value>

  /** An edit changes the root table or refuses. */
  type Edit = Fields -> Option<Fields>

  /** The TOML reader and writer, which are not modelled further: rendering may be refused, and what
      was rendered parses back. */
  datatype Codec = Codec(render: Value -> Option<string>, parse: string -> Option<Value>) {
    ghost predicate Faithful() {
      forall v, text :: render(v) == Some(text) ==> parse(text) == Some(v)
    }
  }

  /** The root table of a file's content; a missing file is an empty document. */
  function Root(codec: Codec, content: Option<string>): Option<Fields> {
    match content
    case None => Some(map[])
    case Some(text) =>
      match codec.parse(text)
      case Some(Table(fields)) => Some(fields)
      case _ => None
  }

  /** The text a patch writes; `None` when it stops with an error before writing anything: the file
      does not parse, its root is not a table, the edit refuses, or the result does not render. */
  function PatchText(codec: Codec, content: Option<string>, edit: Edit): Option<string> {
    match Root(codec, content)
    case None => None
    case Some(fields) =>
      match edit(fields)
      case None => None
      case Some(edited) => codec.render(Table(edited))
  }

  // ----- Sections.

  /** `section` followed by an insert: fetch or create the sub-table `name`, set `key` in it, and
      refuse when `name` is there but not a table. */
  function SetInSection(root: Fields, name: string, key: string, value: Value): Option<Fields> {
    var sub := if name in root then root[name] else Table(map[]);
    match sub
    case Leaf(_) => None
    case Table(fields) => Some(root[name := Table(fields[key := value])])
  }

  function SetEdit(name: string, key: string, value: Value): Edit {
    root => SetInSection(root, name, key, value)
  }

  /** The value at the end of a path of keys. */
  function Lookup(fields: Fields, path: seq<string>): Option<Value>
    requires path != []
    decreases |path|
  {
    if path[0] !in fields then None
    else if |path| == 1 then Some(fields[path[0]])
    else match fields[path[0]]
      case Leaf(_) => None
      case Table(sub) => Lookup(sub, path[1..])
  }

  /** What a document holds before an edit: nothing when the file is missing, and otherwise the table
      its text parses to. */
  ghost predicate ReadsAs(codec: Codec, content: Option<string>, fields: Fields) {
    if content == None then fields == map[] else codec.parse(content.value) == Some(Table(fields))
  }

  /** The text is there, but it is no table: it does not parse, or parses to something else. */
  ghost predicate Malformed(codec: Codec, content: Option<string>) {
    content.Some? && forall fields :: codec.parse(content.value) != Some(Table(fields))
  }

  /** `before` is the old document, `after` what the edit makes of it, and `text` its rendering. */
  ghost predicate Patched(codec: Codec, content: Option<string>, edit: Edit,
                          before: Fields, after: Fields, text: string) {
    ReadsAs(codec, content, before) && edit(before) == Some(after) && codec.render(Table(after)) == Some(text)
  }

  /** A patch writes `text` exactly when the old document can be read, the edit accepts it, and the
      result renders to `text`. */
  lemma PatchTextIff(codec: Codec, content: Option<string>, edit: Edit, text: string)
    ensures PatchText(codec, content, edit) == Some(text)
       <==> exists before, after :: Patched(codec, content, edit, before, after, text)
  {
    if PatchText(codec, content, edit) == Some(text) {
      var before := Root(codec, content).value;
      assert Patched(codec, content, edit, before, edit(before).value, text);
    }
  }

  /** A malformed document is never overwritten. */
  lemma MalformedRefused(codec: Codec, content: Option<string>, edit: Edit)
    requires Malformed(codec, content)
    ensures PatchText(codec, content, edit) == None
  {
    if PatchText(codec, content, edit).Some? {
      PatchTextIff(codec, content, edit, PatchText(codec, content, edit).value);
    }
  }

  /** `sub` is the old section, empty when it is missing, and `text` renders the document in which it
      has the new key. */
  ghost predicate SetIn(codec: Codec, content: Option<string>, name: string, key: string, value: Value,
                        before: Fields, sub: Fields, text: string) {
    && ReadsAs(codec, content, before)
    && (if name in before then before[name] == Table(sub) else sub == map[])
    && codec.render(Table(before[name := Table(sub[key := value])])) == Some(text)
  }

  /** Setting a key goes through exactly when the document can be read, the section's name does not
      hold anything but a table, and the result renders; a missing section is created. */
  lemma SetGoesThroughIff(codec: Codec, content: Option<string>, name: string, key: string, value: Value, text: string)
    ensures PatchText(codec, content, SetEdit(name, key, value)) == Some(text)
       <==> exists before, sub :: SetIn(codec, content, name, key, value, before, sub, text)
  {
    var edit := SetEdit(name, key, value);
    PatchTextIff(codec, content, edit, text);
    hide PatchText;
    if before: Fields, after: Fields :| Patched(codec, content, edit, before, after, text) {
      var sub: Fields := if name in before then before[name].fields else map[];
      assert SetIn(codec, content, name, key, value, before, sub, text);
    }
    if before: Fields, sub: Fields :| SetIn(codec, content, name, key, value, before, sub, text) {
      assert Patched(codec, content, edit, before, before[name := Table(sub[key := value])], text);
    }
  }

  /** Reading a patched file back gives the edited document. */
  lemma PatchReadsBack(codec: Codec, content: Option<string>, edit: Edit, text: string)
    requires codec.Faithful() && PatchText(codec, content, edit) == Some(text)
    ensures Root(codec, Some(text)) == edit(Root(codec, content).value)
  {
  }

  /** A key set through `section` reads back as the new value, and every path that neither runs
      through it nor stops at its section is as before. */
  lemma SetKeepsOthers(codec: Codec, content: Option<string>,
                       name: string, key: string, value: Value, path: seq<string>)
    requires codec.Faithful() && path != []
    requires PatchText(codec, content, SetEdit(name, key, value)).Some?
    ensures var before := Root(codec, content).value;
            var after := Root(codec, PatchText(codec, content, SetEdit(name, key, value)));
            && after.Some?
            && Lookup(after.value, [name, key]) == Some(value)
            && (!([name, key] <= path) && path != [name] ==> Lookup(after.value, path) == Lookup(before, path))
  {
    var edit := SetEdit(name, key, value);
    PatchReadsBack(codec, content, edit, PatchText(codec, content, edit).value);
    var before := Root(codec, content).value;
    var after := SetInSection(before, name, key, value).value;
    assert [name, key][1..] == [key];
    if path[0] == name && |path| > 1 && path[1] != key {
      assert path[1..][0] == path[1];
    }
  }
}
