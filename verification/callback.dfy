/** The data carried by the quality-selection buttons, `"<type>|<selection>"`,
    and the way `quality_chosen` reads it back. */
module Callback {
  import opened Text

  const VideoKind: string := "video"
  const AudioKind: string := "audio"
  /** The only selection an audio button carries. */
  const BestAudioSelection: string := "bestaudio"
  /** Button data that is acknowledged and otherwise ignored. */
  const IgnoreData: string := "ignore"

  datatype Parsed =
    | Ignored
    | Invalid
    | Choice(kind: string, selection: string)

  /** The data of a button: the download type and the selection joined by a bar. */
  function Encode(kind: string, selection: string): string {
    kind + "|" + selection
  }

  /** `quality_chosen`'s reading of button data: `"ignore"` is acknowledged;
      otherwise `split("|")` must give exactly two fields, any other count being
      an invalid selection. */
  function Parse(data: string): (r: Parsed)
    ensures r.Ignored? == (data == IgnoreData)
    ensures r.Choice? == (data != IgnoreData && Count(data, '|') == 1)
    ensures r.Choice? ==> '|' !in r.kind && '|' !in r.selection
  {
    if data == IgnoreData then Ignored
    else
      var fields := SplitOn(data, '|');
      if |fields| == 2 then Choice(fields[0], fields[1]) else Invalid
  }

  /** Every button whose type and selection contain no bar reads back as the
      choice it encodes. */
  lemma ParseEncode(kind: string, selection: string)
    requires '|' !in kind && '|' !in selection
    ensures Parse(Encode(kind, selection)) == Choice(kind, selection)
  {
    var data := Encode(kind, selection);
    assert data == Join([kind, selection], '|');
    assert data != IgnoreData by {
      assert data[|kind|] == '|';
    }
    SplitJoin([kind, selection], '|');
  }

  /** Conversely, accepted data is exactly the encoding of the choice read. */
  lemma EncodeParse(data: string)
    requires Parse(data).Choice?
    ensures Encode(Parse(data).kind, Parse(data).selection) == data
  {
    JoinSplit(data, '|');
  }
}
