/** How `_process_task` turns the user's choice and the entry into a download
    request, before anything is downloaded. */
module Resolution {
  import opened Wrappers
  import opened Text
  import opened Helpers
  import opened Formats
  import opened Selection
  import Callback

  /** The failures reported with a new chat message before any download. */
  datatype TaskError = UnknownFormat | NoAudioInfo | UnknownKind

  /** The downloader's format string, the name it writes to, the name the bot
      then opens (and uses in the caption), and the post-processing asked for. */
  datatype TaskPlan = TaskPlan(
    formatSpec: string,
    downloadName: string,
    captionName: string,
    extractMp3: bool,
    mergeToMp4: bool)

  const VideoExt: string := ".mp4"
  const AudioExt: string := ".mp3"
  const BestAudioSpec: string := "bestaudio"
  const AddBestAudio: string := "+bestaudio"

  /** Resolution of a `(download_type, selection)` pair against the entry:
      a video choice needs its format id in the entry, and asks for the best
      audio stream to be merged in exactly when that format has no audio; an
      audio choice needs a recorded best-audio format (its id is not used, the
      downloader is asked for `bestaudio`); any other type fails. */
  function ResolveTask(e: Entry, kind: string, selection: string): (r: Result<TaskPlan, TaskError>)
    ensures r.Success? ==
      ((kind == Callback.VideoKind && selection in e.formats) ||
       (kind == Callback.AudioKind && e.bestAudio.Some?))
    ensures r.Failure? ==>
      r.error == (if kind == Callback.VideoKind then UnknownFormat
                  else if kind == Callback.AudioKind then NoAudioInfo
                  else UnknownKind)
    ensures r.Success? && kind == Callback.VideoKind ==>
      && (r.value.formatSpec == selection + AddBestAudio) == !e.formats[selection].hasAudio
      && (r.value.formatSpec == selection) == e.formats[selection].hasAudio
      && r.value.downloadName == r.value.captionName
      && r.value.mergeToMp4 && !r.value.extractMp3
    ensures r.Success? && kind == Callback.AudioKind ==>
      && r.value.formatSpec == BestAudioSpec
      && r.value.downloadName + AudioExt == r.value.captionName
      && r.value.extractMp3 && !r.value.mergeToMp4
  {
    var title := SanitizeFilename(e.title);
    if kind == Callback.VideoKind then
      if selection !in e.formats then Failure(UnknownFormat)
      else
        var info := e.formats[selection];
        var spec := if !info.hasAudio then selection + AddBestAudio else selection;
        Success(TaskPlan(spec, title + VideoExt, title + VideoExt, false, true))
    else if kind == Callback.AudioKind then
      if e.bestAudio.None? then Failure(NoAudioInfo)
      else Success(TaskPlan(BestAudioSpec, title, title + AudioExt, true, false))
    else Failure(UnknownKind)
  }

  /** The caption file name is the sanitised title with `.mp4` for video and
      `.mp3` for audio, so it never contains a forbidden character. */
  lemma CaptionName(e: Entry, kind: string, selection: string)
    requires ResolveTask(e, kind, selection).Success?
    ensures var name := ResolveTask(e, kind, selection).value.captionName;
      && name == SanitizeFilename(e.title) + (if kind == Callback.VideoKind then VideoExt else AudioExt)
      && FreeOfForbidden(name)
  {
  }

  /** The i-th video button reads back as the i-th option's id, which the
      entry's format map holds. */
  lemma VideoButtonResolves(md: Metadata, policy: Av1Policy, e: Entry, i: nat)
    requires e.formats == FormatsMap(md.formats, policy)
    requires i < |VideoOptions(md.formats, policy)|
    requires forall j :: 0 <= j < |md.formats| ==> '|' !in md.formats[j].formatId
    ensures var o := VideoOptions(md.formats, policy)[i];
      && Callback.Parse(VideoButtons(VideoOptions(md.formats, policy))[i].data) == Callback.Choice(Callback.VideoKind, o.formatId)
      && ResolveTask(e, Callback.VideoKind, o.formatId).Success?
  {
    var options := VideoOptions(md.formats, policy);
    var o := options[i];
    assert o in options;
    assert '|' !in o.formatId by {
      VideoOptionsMembers(md.formats, policy);
      var j :| 0 <= j < |md.formats| && Offered(md.formats[j], policy) && o == OptionOf(md.formats[j]);
    }
    assert VideoButtons(options)[i].data == Callback.Encode(Callback.VideoKind, o.formatId);
    Callback.ParseEncode(Callback.VideoKind, o.formatId);
    OptionsInMap(md.formats, policy, o);
  }

  /** End to end from the keyboard: pressing the i-th video button of the shown
      choices (format ids without a bar) reads back as the i-th offered format and resolves
      against the entry just recorded; the audio button reads back as the audio
      choice and resolves exactly when an audio-only format existed. */
  lemma ShownButtonsResolve(url: string, md: Metadata, policy: Av1Policy, i: nat)
    requires Prepare(url, Some(md), policy).outcome.ChoicesShown?
    requires i < |Prepare(url, Some(md), policy).outcome.buttons|
    requires forall j :: 0 <= j < |md.formats| ==> '|' !in md.formats[j].formatId
    ensures var p := Prepare(url, Some(md), policy);
      var b := p.outcome.buttons;
      var c := Callback.Parse(b[i].data);
      && c.Choice?
      && (i < |b| - 1 ==> c == Callback.Choice(Callback.VideoKind, VideoOptions(md.formats, policy)[i].formatId))
      && (i == |b| - 1 ==> c == Callback.Choice(Callback.AudioKind, Callback.BestAudioSelection))
      && (c.kind == Callback.VideoKind ==> ResolveTask(p.entry, c.kind, c.selection).Success?)
      && (c.kind == Callback.AudioKind ==>
            (ResolveTask(p.entry, c.kind, c.selection).Success? <==>
              exists j :: 0 <= j < |md.formats| && AudioCandidate(md.formats[j])))
  {
    var p := Prepare(url, Some(md), policy);
    var options := VideoOptions(md.formats, policy);
    var buttons := p.outcome.buttons;
    assert buttons == VideoButtons(options) + [AudioButton(md.formats)];
    if i < |options| {
      assert buttons[i] == VideoButtons(options)[i];
      VideoButtonResolves(md, policy, p.entry, i);
    } else {
      assert buttons[i] == AudioButton(md.formats);
      Callback.ParseEncode(Callback.AudioKind, Callback.BestAudioSelection);
    }
  }
}
