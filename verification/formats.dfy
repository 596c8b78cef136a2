/** How `prepare_video_info_and_show_quality` turns the resolver's list of
    formats into the offered video options, the per-format information kept for
    the later download, and the best audio-only format. */
module Formats {
  import opened Wrappers
  import opened Text

  /** One element of the resolver's `formats` list; a key the record lacks is
      `None`. Frame rates and audio bitrates are the resolver's floats. */
  datatype FormatRecord = FormatRecord(
    formatId: string,
    vcodec: Option<string>,
    acodec: Option<string>,
    height: Option<int>,
    fps: Option<real>,
    filesize: Option<int>,
    filesizeApprox: Option<int>,
    ext: Option<string>,
    abr: Option<real>)

  /** The `AV1_FOR_LOWRES` and `AV1_FOR_HIGHRES` configuration switches. */
  datatype Av1Policy = Av1Policy(lowRes: bool, highRes: bool)

  const Av1LowResIds: set<string> := {"394", "395", "396", "397"}
  const Av1HighResIds: set<string> := {"398", "399", "400", "401", "402"}

  /** Shown for an unknown height, size or extension. */
  const UnknownText: string := "Bilinmiyor"
  const UnknownExt: string := "bilinmiyor"
  const Av1Ext: string := "mp4-av1"

  /** A missing codec key is not `'none'`, so it counts as present. */
  predicate HasVideo(f: FormatRecord) {
    f.vcodec != Some("none")
  }

  predicate HasAudio(f: FormatRecord) {
    f.acodec != Some("none")
  }

  /** A format becomes a video option when it has video and is not an AV1
      format whose resolution band is switched off. */
  predicate Offered(f: FormatRecord, policy: Av1Policy) {
    && HasVideo(f)
    && !(f.formatId in Av1LowResIds && !policy.lowRes)
    && !(f.formatId in Av1HighResIds && !policy.highRes)
  }

  /** An audio-only format: no video, some audio. */
  predicate AudioCandidate(f: FormatRecord) {
    f.vcodec == Some("none") && HasAudio(f)
  }

  /** Python's `int()` on a float: truncation toward zero. */
  function Trunc(x: real): int {
    if x >= 0.0 then x.Floor else -((-x).Floor)
  }

  /** `if height:` */
  predicate ShowsHeight(f: FormatRecord) {
    f.height.Some? && f.height.value != 0
  }

  /** `if fps and int(fps) != 30:` */
  predicate ShowsFps(f: FormatRecord) {
    f.fps.Some? && f.fps.value != 0.0 && Trunc(f.fps.value) != 30
  }

  /** `<height>p`, followed by the whole frame rate unless it is 30. */
  function QualityLabel(f: FormatRecord): string {
    if ShowsHeight(f) then
      IntToString(f.height.value) + "p" + (if ShowsFps(f) then IntToString(Trunc(f.fps.value)) else "")
    else UnknownText
  }

  /** `filesize or filesize_approx`, where zero counts as unknown. */
  function KnownSize(f: FormatRecord): (r: Option<int>)
    ensures r.Some? ==> r.value != 0
    ensures r.None? <==>
      (f.filesize.None? || f.filesize.value == 0) && (f.filesizeApprox.None? || f.filesizeApprox.value == 0)
    ensures f.filesize.Some? && f.filesize.value != 0 ==> r == f.filesize
    ensures r.Some? && r != f.filesize ==> r == f.filesizeApprox
  {
    if f.filesize.Some? && f.filesize.value != 0 then f.filesize
    else if f.filesizeApprox.Some? && f.filesizeApprox.value != 0 then f.filesizeApprox
    else None
  }

  /** The extension shown: `mp4-av1` for an AV1 video codec, else the record's. */
  function DisplayExt(f: FormatRecord): (r: string)
    ensures f.vcodec.Some? && Contains(Lower(f.vcodec.value), "av01") ==> r == Av1Ext
    ensures !(f.vcodec.Some? && Contains(Lower(f.vcodec.value), "av01")) ==> r == f.ext.GetOr(UnknownExt)
    ensures r == Av1Ext || r == f.ext.GetOr(UnknownExt)
  {
    if f.vcodec.Some? && Contains(Lower(f.vcodec.value), "av01") then Av1Ext
    else f.ext.GetOr(UnknownExt)
  }

  /** The AV1 test ignores the codec's letter case: the codec string and its
      lower-cased form give the same extension. */
  lemma DisplayExtIgnoresCase(f: FormatRecord, codec: string)
    ensures DisplayExt(f.(vcodec := Some(Lower(codec)))) == DisplayExt(f.(vcodec := Some(codec)))
  {
    LowerIdempotent(codec);
  }

  /** The parts of an option's description `<label> - <size> (ext: <ext>)`;
      the size stays a byte count instead of the rendered megabytes. */
  datatype Desc = Desc(quality: string, size: Option<int>, ext: string)

  /** What the entry keeps per offered format id. */
  datatype FormatInfo = FormatInfo(hasAudio: bool, desc: Desc)

  /** One video button, in offer order. */
  datatype VideoOption = VideoOption(formatId: string, desc: Desc)

  function DescOf(f: FormatRecord): Desc {
    Desc(QualityLabel(f), KnownSize(f), DisplayExt(f))
  }

  function InfoOf(f: FormatRecord): FormatInfo {
    FormatInfo(HasAudio(f), DescOf(f))
  }

  function OptionOf(f: FormatRecord): VideoOption {
    VideoOption(f.formatId, DescOf(f))
  }

  /** The video options, in the resolver's order, duplicates kept: one option
      per format exactly when every format is offered, and a single format
      gives its own option exactly when it is offered. */
  function VideoOptions(fs: seq<FormatRecord>, policy: Av1Policy): (r: seq<VideoOption>)
    ensures |r| <= |fs|
    ensures |r| == |fs| <==> forall i :: 0 <= i < |fs| ==> Offered(fs[i], policy)
    ensures |fs| == 1 ==> (r == [OptionOf(fs[0])] <==> Offered(fs[0], policy))
    ensures |fs| == 1 ==> (r == [] <==> !Offered(fs[0], policy))
    decreases |fs|
  {
    if |fs| == 0 then []
    else (if Offered(fs[0], policy) then [OptionOf(fs[0])] else []) + VideoOptions(fs[1..], policy)
  }

  /** The per-format map built by the same loop: a later format with the same
      id overwrites an earlier one. */
  function FormatsMap(fs: seq<FormatRecord>, policy: Av1Policy): (m: map<string, FormatInfo>)
    decreases |fs|
  {
    if |fs| == 0 then map[]
    else
      var f := fs[|fs| - 1];
      var m := FormatsMap(fs[..|fs| - 1], policy);
      if Offered(f, policy) then m[f.formatId := InfoOf(f)] else m
  }

  /** `j` is the last offered format carrying `id`. */
  predicate LastOfferedWithId(fs: seq<FormatRecord>, policy: Av1Policy, id: string, j: int) {
    && 0 <= j < |fs|
    && Offered(fs[j], policy) && fs[j].formatId == id
    && forall k :: j < k < |fs| ==> !(Offered(fs[k], policy) && fs[k].formatId == id)
  }

  /** The options keep the resolver's order: the filter distributes over
      concatenation. */
  lemma {:induction false} VideoOptionsConcat(a: seq<FormatRecord>, b: seq<FormatRecord>, policy: Av1Policy)
    ensures VideoOptions(a + b, policy) == VideoOptions(a, policy) + VideoOptions(b, policy)
    decreases |a|
  {
    if |a| == 0 {
      assert a + b == b;
    } else {
      assert (a + b)[1..] == a[1..] + b;
      VideoOptionsConcat(a[1..], b, policy);
    }
  }

  /** An option is offered for every offered format, and only for those. */
  lemma {:induction false} VideoOptionsMembers(fs: seq<FormatRecord>, policy: Av1Policy)
    ensures forall j :: 0 <= j < |fs| && Offered(fs[j], policy) ==> OptionOf(fs[j]) in VideoOptions(fs, policy)
    ensures forall o :: o in VideoOptions(fs, policy) ==>
      exists j :: 0 <= j < |fs| && Offered(fs[j], policy) && o == OptionOf(fs[j])
    ensures (|VideoOptions(fs, policy)| == 0) == (forall j :: 0 <= j < |fs| ==> !Offered(fs[j], policy))
  {
    VideoOptionsComplete(fs, policy);
    VideoOptionsSound(fs, policy);
    VideoOptionsEmpty(fs, policy);
  }

  /** Every offered format has its option in the list. */
  lemma {:induction false} VideoOptionsComplete(fs: seq<FormatRecord>, policy: Av1Policy)
    ensures forall j :: 0 <= j < |fs| && Offered(fs[j], policy) ==> OptionOf(fs[j]) in VideoOptions(fs, policy)
    decreases |fs|
  {
    if |fs| > 0 {
      var rest := fs[1..];
      VideoOptionsComplete(rest, policy);
      forall j | 0 <= j < |fs| && Offered(fs[j], policy)
        ensures OptionOf(fs[j]) in VideoOptions(fs, policy)
      {
        if j > 0 {
          assert fs[j] == rest[j - 1];
        }
      }
    }
  }

  /** Every option in the list comes from an offered format. */
  lemma {:induction false} VideoOptionsSound(fs: seq<FormatRecord>, policy: Av1Policy)
    ensures forall o :: o in VideoOptions(fs, policy) ==>
      exists j :: 0 <= j < |fs| && Offered(fs[j], policy) && o == OptionOf(fs[j])
    decreases |fs|
  {
    if |fs| > 0 {
      var rest := fs[1..];
      VideoOptionsSound(rest, policy);
      forall o | o in VideoOptions(fs, policy)
        ensures exists j :: 0 <= j < |fs| && Offered(fs[j], policy) && o == OptionOf(fs[j])
      {
        if o in VideoOptions(rest, policy) {
          var j :| 0 <= j < |rest| && Offered(rest[j], policy) && o == OptionOf(rest[j]);
          assert fs[j + 1] == rest[j];
        } else {
          assert Offered(fs[0], policy) && o == OptionOf(fs[0]);
        }
      }
    }
  }

  /** The list is empty exactly when no format is offered. */
  lemma {:induction false} VideoOptionsEmpty(fs: seq<FormatRecord>, policy: Av1Policy)
    ensures (|VideoOptions(fs, policy)| == 0) == (forall j :: 0 <= j < |fs| ==> !Offered(fs[j], policy))
    decreases |fs|
  {
    if |fs| > 0 {
      var rest := fs[1..];
      VideoOptionsEmpty(rest, policy);
      if forall j :: 0 <= j < |fs| ==> !Offered(fs[j], policy) {
        assert forall j :: 0 <= j < |rest| ==> !Offered(rest[j], policy) by {
          forall j | 0 <= j < |rest| ensures !Offered(rest[j], policy) {
            assert rest[j] == fs[j + 1];
          }
        }
      }
    }
  }

  /** The map's keys are exactly the ids of the offered formats. */
  lemma {:induction false} FormatsMapKeys(fs: seq<FormatRecord>, policy: Av1Policy, id: string)
    ensures id in FormatsMap(fs, policy) <==>
      exists j :: 0 <= j < |fs| && Offered(fs[j], policy) && fs[j].formatId == id
    decreases |fs|
  {
    if |fs| > 0 {
      var n := |fs| - 1;
      var init := fs[..n];
      var f := fs[n];
      FormatsMapKeys(init, policy, id);
      if id in FormatsMap(fs, policy) {
        if !(Offered(f, policy) && f.formatId == id) {
          assert id in FormatsMap(init, policy);
          var j :| 0 <= j < |init| && Offered(init[j], policy) && init[j].formatId == id;
          assert fs[j] == init[j];
        }
      } else {
        forall j | 0 <= j < |fs| ensures !(Offered(fs[j], policy) && fs[j].formatId == id) {
          if j < n {
            assert init[j] == fs[j];
          }
        }
      }
    }
  }

  /** Each key holds the information of the last offered format with that id. */
  lemma {:induction false} FormatsMapValues(fs: seq<FormatRecord>, policy: Av1Policy, id: string)
    requires id in FormatsMap(fs, policy)
    ensures exists j :: LastOfferedWithId(fs, policy, id, j) && FormatsMap(fs, policy)[id] == InfoOf(fs[j])
    decreases |fs|
  {
    var n := |fs| - 1;
    var init := fs[..n];
    var f := fs[n];
    if Offered(f, policy) && f.formatId == id {
      assert LastOfferedWithId(fs, policy, id, n);
    } else {
      assert FormatsMap(fs, policy) == FormatsMap(init, policy) || FormatsMap(fs, policy) == FormatsMap(init, policy)[f.formatId := InfoOf(f)];
      assert id in FormatsMap(init, policy) && FormatsMap(fs, policy)[id] == FormatsMap(init, policy)[id];
      FormatsMapValues(init, policy, id);
      var j :| LastOfferedWithId(init, policy, id, j) && FormatsMap(init, policy)[id] == InfoOf(init[j]);
      assert init[j] == fs[j];
      assert LastOfferedWithId(fs, policy, id, j);
    }
  }

  /** Every offered option's id is a key of the map. */
  lemma OptionsInMap(fs: seq<FormatRecord>, policy: Av1Policy, o: VideoOption)
    requires o in VideoOptions(fs, policy)
    ensures o.formatId in FormatsMap(fs, policy)
  {
    VideoOptionsMembers(fs, policy);
    var j :| 0 <= j < |fs| && Offered(fs[j], policy) && o == OptionOf(fs[j]);
    FormatsMapKeys(fs, policy, o.formatId);
  }

  /** `f.get('abr', 0)` */
  function Abr(f: FormatRecord): real {
    f.abr.GetOr(0.0)
  }

  /** `max(audio_candidates, key=abr)` over the first `n` formats: the first
      audio-only format of greatest bitrate, absent when there is none. */
  function BestAudioIndex(fs: seq<FormatRecord>, n: nat): (r: Option<nat>)
    requires n <= |fs|
    ensures r.None? == (forall j :: 0 <= j < n ==> !AudioCandidate(fs[j]))
    ensures r.Some? ==> r.value < n && AudioCandidate(fs[r.value])
    ensures r.Some? ==> forall j :: 0 <= j < n && AudioCandidate(fs[j]) ==> Abr(fs[j]) <= Abr(fs[r.value])
    ensures r.Some? ==> forall j :: 0 <= j < r.value && AudioCandidate(fs[j]) ==> Abr(fs[j]) < Abr(fs[r.value])
    decreases n
  {
    if n == 0 then None
    else
      var best := BestAudioIndex(fs, n - 1);
      var f := fs[n - 1];
      if AudioCandidate(f) && (best.None? || Abr(f) > Abr(fs[best.value])) then Some(n - 1) else best
  }

  /** Reference reader of a quality label: `<height>p<fps>` with the frame rate
      optional; anything else has no height. */
  function ParseLabel(text: string): Option<(int, Option<int>)> {
    var f := SplitOn(text, 'p');
    if |f| != 2 then None
    else
      match ParseDecimal(f[0])
      case None => None
      case Some(h) =>
        if f[1] == "" then Some((h, None))
        else
          match ParseDecimal(f[1])
          case None => None
          case Some(x) => Some((h, Some(x)))
  }

  lemma NoPInIntToString(i: int)
    ensures 'p' !in IntToString(i)
  {
  }

  /** The label carries the height and the frame rate it shows and nothing
      else: reading it back gives the height, and the whole frame rate exactly
      when that is present, non-zero and not 30; a format without a known
      height reads back as no height. */
  lemma QualityLabelRoundTrip(f: FormatRecord)
    ensures ParseLabel(QualityLabel(f)) ==
      if ShowsHeight(f) then Some((f.height.value, if ShowsFps(f) then Some(Trunc(f.fps.value)) else None))
      else None
  {
    if ShowsHeight(f) {
      var h := IntToString(f.height.value);
      var x := if ShowsFps(f) then IntToString(Trunc(f.fps.value)) else "";
      NoPInIntToString(f.height.value);
      if ShowsFps(f) {
        NoPInIntToString(Trunc(f.fps.value));
        IntToStringRoundTrip(Trunc(f.fps.value));
      }
      assert QualityLabel(f) == Join([h, x], 'p');
      SplitJoin([h, x], 'p');
      IntToStringRoundTrip(f.height.value);
      if ShowsFps(f) {
        assert x != "" by { assert |x| >= 1; }
      }
    } else {
      assert 'p' !in UnknownText;
      SplitOnFieldOnly(UnknownText, 'p');
    }
  }
}
