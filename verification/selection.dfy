/** The selection entry `prepare_video_info_and_show_quality` records for a user
    and the keyboard it shows. The resolver's call is an input: `None` when the
    metadata extraction raised, else the metadata it returned. */
module Selection {
  import opened Wrappers
  import opened Formats
  import Callback

  /** `bestaudio_info`: the best audio-only format's id and extension. */
  datatype AudioInfo = AudioInfo(formatId: string, ext: Option<string>)

  /** `user_video_info[user_id]`: the state of the user's last resolved link. */
  datatype Entry = Entry(
    url: string,
    formats: map<string, FormatInfo>,
    title: string,
    duration: int,
    thumbnail: Option<string>,
    selectionMade: bool,
    bestAudio: Option<AudioInfo>)

  /** The resolver's answer; a key it lacks is `None`. */
  datatype Metadata = Metadata(
    title: Option<string>,
    duration: Option<int>,
    thumbnail: Option<string>,
    formats: seq<FormatRecord>)

  const DefaultTitle: string := "Video"

  /** The best audio format as its button describes it. */
  datatype AudioSummary = AudioSummary(formatId: string, size: Option<int>)

  datatype ButtonText = VideoText(desc: Desc) | AudioText(best: Option<AudioSummary>)

  datatype Button = Button(text: ButtonText, data: string)

  datatype PrepareOutcome =
    | ResolveFailed
    | NoVideoFormat
    | ChoicesShown(buttons: seq<Button>)

  /** The recorded entry and what the user is shown. The 60-second selection
      timer is started exactly when choices are shown. */
  datatype Prepared = Prepared(entry: Entry, outcome: PrepareOutcome)

  /** The entry as first recorded, before the resolver answers. */
  function BlankEntry(url: string): Entry {
    Entry(url, map[], "", 0, None, false, None)
  }

  function VideoButtons(opts: seq<VideoOption>): (r: seq<Button>)
    ensures |r| == |opts|
  {
    seq(|opts|, i requires 0 <= i < |opts| =>
      Button(VideoText(opts[i].desc), Callback.Encode(Callback.VideoKind, opts[i].formatId)))
  }

  /** The audio button is always offered alongside video buttons, whether or
      not an audio-only format exists. */
  function AudioButton(fs: seq<FormatRecord>): (b: Button)
    ensures Callback.Parse(b.data) == Callback.Choice(Callback.AudioKind, Callback.BestAudioSelection)
    ensures b.text.AudioText?
    ensures b.text.best.None? <==> forall j :: 0 <= j < |fs| ==> !AudioCandidate(fs[j])
    ensures b.text.best.Some? ==>
      exists j :: 0 <= j < |fs| && AudioCandidate(fs[j])
        && b.text.best.value == AudioSummary(fs[j].formatId, KnownSize(fs[j]))
        && forall k :: 0 <= k < |fs| && AudioCandidate(fs[k]) ==> Abr(fs[k]) <= Abr(fs[j])
    ensures b.text.best.Some? <==> BestAudioInfo(fs).Some?
    ensures b.text.best.Some? ==> b.text.best.value.formatId == BestAudioInfo(fs).value.formatId
  {
    Callback.ParseEncode(Callback.AudioKind, Callback.BestAudioSelection);
    var best := BestAudioIndex(fs, |fs|);
    var summary := if best.Some? then Some(AudioSummary(fs[best.value].formatId, KnownSize(fs[best.value]))) else None;
    Button(AudioText(summary), Callback.Encode(Callback.AudioKind, Callback.BestAudioSelection))
  }

  /** `bestaudio_info`: the id and extension of the first audio-only format
      of maximal bitrate, as `max` with a key picks it; none without an
      audio-only format. */
  function BestAudioInfo(fs: seq<FormatRecord>): (r: Option<AudioInfo>)
    ensures r.None? <==> forall j :: 0 <= j < |fs| ==> !AudioCandidate(fs[j])
    ensures r.Some? ==>
      exists j :: 0 <= j < |fs| && AudioCandidate(fs[j])
        && r.value == AudioInfo(fs[j].formatId, fs[j].ext)
        && (forall k :: 0 <= k < |fs| && AudioCandidate(fs[k]) ==> Abr(fs[k]) <= Abr(fs[j]))
        && (forall k :: 0 <= k < j && AudioCandidate(fs[k]) ==> Abr(fs[k]) < Abr(fs[j]))
  {
    var best := BestAudioIndex(fs, |fs|);
    if best.Some? then Some(AudioInfo(fs[best.value].formatId, fs[best.value].ext)) else None
  }

  /** `prepare_video_info_and_show_quality`: the entry always replaces the
      user's previous one and starts unselected; a resolver failure leaves the
      blank entry; without any offered video format nothing is offered, not
      even the audio button, and the entry still records the audio format;
      otherwise one button per offered format and then the audio button. */
  function Prepare(url: string, resolved: Option<Metadata>, policy: Av1Policy): (r: Prepared)
    ensures r.entry.url == url && !r.entry.selectionMade
    ensures resolved.None? ==> r.outcome.ResolveFailed? && r.entry == BlankEntry(url)
    ensures resolved.Some? ==> !r.outcome.ResolveFailed?
    ensures resolved.Some? ==> r.entry.formats == FormatsMap(resolved.value.formats, policy)
    ensures resolved.Some? ==>
      (r.outcome.ChoicesShown? <==>
        exists j :: 0 <= j < |resolved.value.formats| && Offered(resolved.value.formats[j], policy))
    ensures resolved.Some? ==>
      (r.entry.bestAudio.Some? <==>
        exists j :: 0 <= j < |resolved.value.formats| && AudioCandidate(resolved.value.formats[j]))
    ensures resolved.Some? ==>
      && r.entry.title == resolved.value.title.GetOr(DefaultTitle)
      && r.entry.duration == resolved.value.duration.GetOr(0)
      && r.entry.thumbnail == resolved.value.thumbnail
    ensures resolved.Some? ==> r.entry.bestAudio == BestAudioInfo(resolved.value.formats)
    ensures r.outcome.ChoicesShown? ==>
      var b := r.outcome.buttons;
      |b| >= 2 && b[|b| - 1].data == Callback.Encode(Callback.AudioKind, Callback.BestAudioSelection)
    ensures r.outcome.ChoicesShown? ==>
      var b := r.outcome.buttons;
      var options := VideoOptions(resolved.value.formats, policy);
      && |b| == |options| + 1
      && (forall i :: 0 <= i < |options| ==>
            b[i] == Button(VideoText(options[i].desc), Callback.Encode(Callback.VideoKind, options[i].formatId)))
      && b[|options|] == AudioButton(resolved.value.formats)
  {
    match resolved
    case None => Prepared(BlankEntry(url), ResolveFailed)
    case Some(md) =>
      var entry := Entry(url, FormatsMap(md.formats, policy), md.title.GetOr(DefaultTitle),
                         md.duration.GetOr(0), md.thumbnail, false, BestAudioInfo(md.formats));
      var options := VideoOptions(md.formats, policy);
      VideoOptionsMembers(md.formats, policy);
      if |options| == 0 then Prepared(entry, NoVideoFormat)
      else Prepared(entry, ChoicesShown(VideoButtons(options) + [AudioButton(md.formats)]))
  }
}
