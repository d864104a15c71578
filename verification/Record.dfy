/**
 Envelopes: all of a record that the server can read.

 Text that the server compares or concatenates (ids, device ids, account ids) is kept as
 the bytes of its UTF-8 form, because both Rust's `str` ordering and SQLite's BINARY
 collation compare those bytes.
 */
module Record {
  datatype Option<+T> = None | Some(value: T)

  type Byte = x: int | 0 <= x < 256
  type Text = seq<Byte>

  datatype RecordKind = Host | Group | Identity | VarDef | Setting | Workspace | DeviceLayout

  datatype KeyRef = Personal | InGroup(groupId: Text)

  datatype Envelope = Envelope(
    id: Text,
    kind: RecordKind,
    keyRef: KeyRef,
    groupId: Option<Text>,
    parentId: Option<Text>,
    sort: int,
    updatedAt: int,
    deviceId: Text,
    deletedAt: Option<int>,
    nonce: Text,
    ciphertext: Text,
    seqNo: int)
  {
    /** The change-log position is the server's; everything else is the writer's. */
    function Content(): Envelope { this.(seqNo := 0) }

    predicate IsTombstone() { deletedAt.Some? }
  }

  predicate SameContent(a: Envelope, b: Envelope) { a.Content() == b.Content() }

  function AsStr(kind: RecordKind): string {
    match kind
    case Host => "host"
    case Group => "group"
    case Identity => "identity"
    case VarDef => "var_def"
    case Setting => "setting"
    case Workspace => "workspace"
    case DeviceLayout => "device_layout"
  }

  function Parse(s: string): Option<RecordKind> {
    if s == "host" then Some(Host)
    else if s == "group" then Some(Group)
    else if s == "identity" then Some(Identity)
    else if s == "var_def" then Some(VarDef)
    else if s == "setting" then Some(Setting)
    else if s == "workspace" then Some(Workspace)
    else if s == "device_layout" then Some(DeviceLayout)
    else None
  }

  /** Parsing accepts exactly the seven stored names and never misfiles one kind as another. */
  lemma ParseInvertsAsStr(s: string, kind: RecordKind)
    ensures Parse(s) == Some(kind) <==> s == AsStr(kind)
  {
    assert |"host"| == 4 && |"group"| == 5 && |"identity"| == 8 && |"var_def"| == 7;
    assert |"setting"| == 7 && |"workspace"| == 9 && |"device_layout"| == 13;
    assert "var_def"[0] != "setting"[0];
  }

  /** The names the server keeps, which must never change. */
  lemma StoredNames()
    ensures Parse("host") == Some(Host) && Parse("group") == Some(Group) && Parse("identity") == Some(Identity)
    ensures Parse("var_def") == Some(VarDef) && Parse("setting") == Some(Setting)
    ensures Parse("workspace") == Some(Workspace) && Parse("device_layout") == Some(DeviceLayout)
  {
    ParseInvertsAsStr("host", Host);
    ParseInvertsAsStr("group", Group);
    ParseInvertsAsStr("identity", Identity);
    ParseInvertsAsStr("var_def", VarDef);
    ParseInvertsAsStr("setting", Setting);
    ParseInvertsAsStr("workspace", Workspace);
    ParseInvertsAsStr("device_layout", DeviceLayout);
    hide Parse;
  }
}
