/** Clipboard synchronisation between the two sides of a session (vntcrustdesk-src/src/clipboard.rs:51-76,
    199-240, 313-357, 470-524; vntcrustdesk-src/src/client.rs:1004-1030, 1119-1149;
    vntcrustdesk-src/src/server/clipboard_service.rs:80-109, 136-176). */
module Clipboard {
  import opened Basics

  datatype Side = Host | Client {
    function Other(): Side {
      if Host? then Client else Host
    }
    function OwnerData(): seq<Byte> {
      if Host? then [1] else [2]
    }
    /** `data[0] & 0b11 != 0`: either side's tag counts. */
    predicate IsOwner(data: seq<Byte>) {
      data != [] && data[0] % 4 != 0
    }
  }

  /** One format on the clipboard; `Rich` stands for RTF, HTML and images. */
  datatype Data = Text(text: string) | Rich(kind: nat, content: seq<Byte>) | FileUrl(urls: seq<string>)
                | Special(name: string, bytes: seq<Byte>)

  const OWNER_FORMAT: string := "dyn.com.rustdesk.owner"
  const EXCEL_FORMAT: string := "XML Spreadsheet"

  /** `SUPPORTED_FORMATS`; file urls only with the file copy-paste feature. */
  predicate Supported(files: bool, c: Data) {
    match c
    case FileUrl(_) => files
    case Special(name, _) => name == EXCEL_FORMAT || name == OWNER_FORMAT
    case _ => true
  }

  predicate Tagged(side: Side, c: Data) {
    c.Special? && c.name == OWNER_FORMAT && side.IsOwner(c.bytes)
  }

  /** Everything but the owner tag and empty text. */
  predicate Shared(c: Data) {
    match c
    case Special(name, _) => name != OWNER_FORMAT
    case Text(text) => text != ""
    case _ => true
  }

  function Filter(p: Data -> bool, s: seq<Data>): (r: seq<Data>)
    ensures forall c :: c in r <==> c in s && p(c)
  {
    if s == [] then [] else (if p(s[0]) then [s[0]] else []) + Filter(p, s[1..])
  }

  function GetFormats(files: bool, cell: seq<Data>): seq<Data> {
    Filter(c => Supported(files, c), cell)
  }

  /** `get`: what the side may send. Nothing at all if the clipboard carries an owner tag, unless
      forced, or if it holds files. */
  function Get(files: bool, cell: seq<Data>, side: Side, force: bool): seq<Data> {
    var data := GetFormats(files, cell);
    if !force && exists c :: c in data && Tagged(side, c) then []
    else
      var content := Filter(Shared, data);
      if files && exists c :: c in content && c.FileUrl? then [] else content
  }

  /** Written by an applied update: its formats and the side's own tag. */
  function WithOwner(update: seq<Data>, side: Side): seq<Data> {
    update + [Special(OWNER_FORMAT, side.OwnerData())]
  }

  /** An applied update can never be sent on, whatever formats it brought. */
  lemma AppliedIsSilent(files: bool, update: seq<Data>, side: Side, reader: Side)
    ensures Get(files, WithOwner(update, side), reader, false) == []
  {
    var tag := Special(OWNER_FORMAT, side.OwnerData());
    assert tag in WithOwner(update, side);
    assert tag in GetFormats(files, WithOwner(update, side)) && Tagged(reader, tag);
  }

  lemma {:induction false} FilterAppend(p: Data -> bool, s: seq<Data>, t: seq<Data>)
    ensures Filter(p, s + t) == Filter(p, s) + Filter(p, t)
  {
    if s == [] {
      assert s + t == t;
    } else {
      assert (s + t)[1..] == s[1..] + t;
      FilterAppend(p, s[1..], t);
    }
  }

  /** A forced read does not see the owner tag: an applied update reads like a local copy of it. */
  lemma ForcedReadIgnoresOwner(files: bool, update: seq<Data>, side: Side, reader: Side)
    ensures Get(files, WithOwner(update, side), reader, true) == Get(files, update, reader, true)
  {
    var tag := Special(OWNER_FORMAT, side.OwnerData());
    var supported: Data -> bool := c => Supported(files, c);
    FilterAppend(supported, update, [tag]);
    assert Filter(supported, [tag]) == [tag] by {
      assert [tag][1..] == [];
    }
    FilterAppend(Shared, Filter(supported, update), [tag]);
    assert Filter(Shared, [tag]) == [] by {
      assert [tag][1..] == [];
    }
  }

  /** The content `get_current_clipboard_msg` starts from: the last message, or else a forced read. */
  function Snapshot(files: bool, cell: seq<Data>, lastSent: seq<Data>, side: Side, readable: bool): seq<Data> {
    if lastSent != [] then lastSent else if readable then Get(files, cell, side, true) else []
  }

  /** A peer that takes only one format gets the first text. */
  function ForPeer(content: seq<Data>, multi: bool): Option<seq<Data>> {
    if content == [] then None
    else if multi then Some(content)
    else if content[0].Text? then Some([content[0]])
    else ForPeer(content[1..], multi)
  }

  // ----- what is sent, without the functions above -----

  /** An owner tag of either side. */
  predicate OwnerTag(c: Data) {
    c.Special? && c.name == "dyn.com.rustdesk.owner" && c.bytes != [] && c.bytes[0] % 4 != 0
  }

  /** What may be sent: text that is not empty, RTF, HTML and images, and Excel's format. */
  predicate Sendable(c: Data) {
    match c
    case Text(text) => text != ""
    case Rich(_, _) => true
    case FileUrl(_) => false
    case Special(name, _) => name == "XML Spreadsheet"
  }

  /** A read finds exactly what may be sent of the clipboard, and nothing of one with an owner tag, unless it is
      forced, or of one with files where files can be copied. */
  lemma GetExactly(files: bool, cell: seq<Data>, side: Side, force: bool, c: Data)
    ensures c in Get(files, cell, side, force) <==>
            && c in cell && Sendable(c)
            && (force || !exists d :: d in cell && OwnerTag(d))
            && !(files && exists d :: d in cell && d.FileUrl?)
  {
    var data := GetFormats(files, cell);
    assert forall d :: d in data && Tagged(side, d) <==> d in cell && OwnerTag(d);
    var content := Filter(Shared, data);
    assert forall d :: d in content && d.FileUrl? <==> d in cell && d.FileUrl? && files;
  }

  lemma FilterOne(p: Data -> bool, c: Data)
    ensures Filter(p, [c]) == if p(c) then [c] else []
  {
    assert [c][1..] == [];
  }

  /** A forced read of a single format is that format or nothing. */
  lemma GetOne(files: bool, c: Data, side: Side)
    ensures Get(files, [c], side, true) == if Sendable(c) then [c] else []
  {
    GetExactly(files, [c], side, true, c);
    FilterOne(d => Supported(files, d), c);
    FilterOne(Shared, c);
  }

  /** And it keeps the order: a forced read of two clipboards put together, if no files are in them, is the
      reads of both. An unforced read is nothing or the same as a forced one. */
  lemma GetInOrder(files: bool, cell: seq<Data>, more: seq<Data>, side: Side)
    requires forall d :: d in cell + more ==> !d.FileUrl?
    ensures Get(files, cell + more, side, true) == Get(files, cell, side, true) + Get(files, more, side, true)
    ensures Get(files, cell, side, false) == [] || Get(files, cell, side, false) == Get(files, cell, side, true)
  {
    var supported: Data -> bool := d => Supported(files, d);
    FilterAppend(supported, cell, more);
    FilterAppend(Shared, GetFormats(files, cell), GetFormats(files, more));
    GetWithoutFiles(files, cell + more, side);
    GetWithoutFiles(files, cell, side);
    GetWithoutFiles(files, more, side);
  }

  lemma GetWithoutFiles(files: bool, cell: seq<Data>, side: Side)
    requires forall d :: d in cell ==> !d.FileUrl?
    ensures Get(files, cell, side, true) == Filter(Shared, GetFormats(files, cell))
  {
  }

  /** A peer with multi-format support gets everything; another one gets the first text, if there is one. */
  lemma {:induction false} ForPeerExactly(content: seq<Data>, multi: bool)
    ensures ForPeer([], multi) == None
    ensures content != [] ==> ForPeer(content, true) == Some(content)
    ensures ForPeer(content, false).None? <==> forall c :: c in content ==> !c.Text?
    ensures forall k :: 0 <= k < |content| && content[k].Text? && (forall j :: 0 <= j < k ==> !content[j].Text?) ==>
              ForPeer(content, false) == Some([content[k]])
  {
    if content != [] {
      var rest := content[1..];
      ForPeerExactly(rest, multi);
      assert forall j :: 0 < j < |content| ==> content[j] == rest[j - 1];
    }
  }

  /** The local clipboard and the code that reads and writes it. */
  class ClipboardContext {
    const files: bool
    var cell: seq<Data>
    var lastSent: seq<Data>  // LAST_MULTI_CLIPBOARDS

    constructor (files: bool)
      ensures this.files == files && cell == [] && lastSent == []
    {
      this.files, cell, lastSent := files, [], [];
    }

    method GetFormatsFilter(side: Side, force: bool) returns (content: seq<Data>)
      ensures content ==
              if !force && exists c :: c in GetFormats(files, cell) && Tagged(side, c) then []
              else Filter(Shared, GetFormats(files, cell))
    {
      var data := GetFormats(files, cell);
      if data == [] {
        return [];
      }
      if !force {
        for k := 0 to |data|
          invariant forall j :: 0 <= j < k ==> !Tagged(side, data[j])
        {
          if data[k].Special? {
            if data[k].name == OWNER_FORMAT && side.IsOwner(data[k].bytes) {
              assert data[k] in data && Tagged(side, data[k]);
              return [];
            }
          }
        }
      }
      content := Filter(Shared, data);
    }

    /** `get`, of a clipboard that can be read. */
    method GetContent(side: Side, force: bool) returns (content: seq<Data>)
      ensures content == Get(files, cell, side, force)
    {
      hide Filter, GetFormats, Tagged, Shared;
      content := GetFormatsFilter(side, force);
      if files {
        for k := 0 to |content|
          invariant forall j :: 0 <= j < k ==> !content[j].FileUrl?
        {
          if content[k].FileUrl? {
            assert content[k] in content;
            return [];
          }
        }
      }
    }

    /** An unreadable clipboard is only logged. */
    method CheckClipboard(side: Side, force: bool, readable: bool) returns (msg: Option<seq<Data>>)
      modifies this`lastSent
      ensures var content := if readable then Get(files, cell, side, force) else [];
              if content == [] then msg == None && lastSent == old(lastSent)
              else msg == Some(content) && lastSent == content
    {
      if readable {
        var content := GetContent(side, force);
        if content != [] {
          lastSent := content;
          return Some(content);
        }
      }
      return None;
    }

    /** `get_current_clipboard_msg`, sent by the client when a connection is established. */
    method GetCurrentClipboardMsg(side: Side, multi: bool, readable: bool) returns (msg: Option<seq<Data>>)
      modifies this`lastSent
      ensures lastSent == Snapshot(files, cell, old(lastSent), side, readable)
      ensures old(lastSent) != [] ==> lastSent == old(lastSent)
      ensures old(lastSent) == [] ==> lastSent == if readable then Get(files, cell, side, true) else []
      ensures msg == ForPeer(lastSent, multi)
    {
      hide Get;
      if lastSent == [] {
        if !readable {
          return None;
        }
        lastSent := GetContent(side, true);
      }
      if lastSent == [] {
        return None;
      }
      if multi {
        return Some(lastSent);
      }
      assert lastSent[0..] == lastSent;
      for k := 0 to |lastSent|
        invariant ForPeer(lastSent, false) == ForPeer(lastSent[k..], false)
      {
        assert lastSent[k..][0] == lastSent[k] && lastSent[k..][1..] == lastSent[k + 1..];
        if lastSent[k].Text? {
          return Some([lastSent[k]]);
        }
      }
      return None;
    }

    /** `update_clipboard_`: an update without usable formats is ignored. */
    method UpdateClipboard(update: seq<Data>, side: Side, setSucceeds: bool) returns (written: bool)
      modifies this`cell
      ensures written == (update != [] && setSucceeds)
      ensures cell == if written then WithOwner(update, side) else old(cell)
      ensures written ==> cell == update + [Special("dyn.com.rustdesk.owner", [if side.Host? then 1 else 2])]
    {
      if update == [] {
        return false;
      }
      var toUpdate := update + [Special(OWNER_FORMAT, side.OwnerData())];
      if setSucceeds {
        cell := toUpdate;
      }
      written := setSucceeds;
    }
  }
}
