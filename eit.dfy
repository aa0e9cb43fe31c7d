/**
 * The byte-level parsers of the EPG grabber's Event Information Table
 * module (ETSI EN 300 468 section 5.2.4, ISDB build): the section header
 * guard and segment mask of the table callback, the event loop and the
 * descriptor walk, and the descriptor decoders that fill in the event
 * record (component, content, parental rating, ARIB audio component).
 */
module Eit {
  import opened Bytes

  // Descriptor tags the walk dispatches on.
  const TagShortEvent: Byte := 0x4d
  const TagExtEvent: Byte := 0x4e
  const TagComponent: Byte := 0x50
  const TagContent: Byte := 0x54
  const TagParental: Byte := 0x55
  const TagCrid: Byte := 0x76
  const TagAudioComponent: Byte := 0xc4
  const TagEventGroup: Byte := 0xd6

  datatype Option<T> = None | Some(value: T)

  /** The stream properties of the event record (sct_props). */
  datatype SctProps = SctProps(tag: Byte, height: int, width: int, aspectNum: int, aspectDen: int,
                               lang: seq<Byte>, isDmono: bool, channels: int, sri: int, langSub: seq<Byte>)

  /** sct_props after the memset. */
  const NoProps := SctProps(0, 0, 0, 0, 0, [0, 0, 0], false, 0, 0, [0, 0, 0])

  /**
   * The fields of eit_event_t that the decoders here write: the stream
   * properties, the hd/ws/ad/st/ds flags, the parental rating, the genre
   * codes and the event-group descriptor body.
   */
  datatype EitEvent = EitEvent(props: SctProps, hd: int, ws: int, ad: int, st: int, ds: int,
                               parental: int, genre: seq<Byte>, group: seq<Byte>)

  /** The event record after the memset. */
  const NoEvent := EitEvent(NoProps, 0, 0, 0, 0, 0, 0, [], [])

  /** A descriptor handler's return value and the record after it. */
  datatype Handled = Handled(r: int, ev: EitEvent)

  // ---------------------------------------------------------------------
  // Component descriptor (0x50), ISDB branch

  /** The frame height for the high nibble of component_type, or -1 for one the decoder refuses. */
  function FrameHeight(t: Byte): (h: int)
    ensures h == -1 || h == 480 || h == 1080 || h == 720 || h == 240
    ensures h == -1 <==> !(t & 0xf0 in {0x00, 0xa0, 0xb0, 0xc0, 0xd0})
  {
    var hi := t & 0xf0;
    if hi == 0x00 || hi == 0xa0 then 480
    else if hi == 0xb0 then 1080
    else if hi == 0xc0 then 720
    else if hi == 0xd0 then 240
    else -1
  }

  /** The accepted tail of the component decoder: language code, then ws/hd for the main video ES. */
  function ComponentAccept(d: seq<Byte>, ev: EitEvent, p: SctProps): (res: Handled)
    requires |d| >= 6
    ensures res.r == 0 && res.ev.props == p.(lang := d[3..6])
    ensures res.ev.(props := ev.props, hd := ev.hd, ws := ev.ws) == ev
    ensures d[2] != 0 ==> res.ev.hd == ev.hd && res.ev.ws == ev.ws
  {
    var p := p.(lang := d[3..6]);
    if d[2] == 0 then Handled(0, ev.(props := p, ws := if p.aspectNum != 4 then 1 else 0, hd := if p.height >= 720 then 1 else 0))
    else Handled(0, ev.(props := p))
  }

  /**
   * _eit_desc_component, ISDB build: only video (stream_content 1) is
   * accepted; the high nibble of component_type gives the height, the low
   * nibble the aspect ratio and width.  The record is left alone when the
   * descriptor is short or not video; past that point sct_props is cleared
   * even when a later field is refused.
   */
  function ComponentIsdb(d: seq<Byte>, ev: EitEvent): (res: Handled)
    ensures res.r == 0 || res.r == -1
    ensures |d| < 6 || d[0] & 0x0f != 0x01 ==> res == Handled(-1, ev)
    ensures res.r == 0 <==> |d| >= 6 && d[0] & 0x0f == 0x01 && FrameHeight(d[1]) > 0 && d[1] & 0x0f in {1, 3, 4}
    ensures res.ev.(props := ev.props, hd := ev.hd, ws := ev.ws) == ev
    ensures res.ev.hd != ev.hd || res.ev.ws != ev.ws ==> res.r == 0 && d[2] == 0
  {
    if |d| < 6 || d[0] & 0x0f != 0x01 then Handled(-1, ev)
    else
      var h := FrameHeight(d[1]);
      var p := NoProps.(tag := d[2]);
      if h < 0 then Handled(-1, ev.(props := p))
      else
        var p := p.(height := h);
        var a := d[1] & 0x0f;
        if a == 1 then ComponentAccept(d, ev, p.(aspectNum := 4, aspectDen := 3, width := h * 4 / 3))
        else if a == 3 then ComponentAccept(d, ev, p.(aspectNum := 16, aspectDen := 9, width := h * 16 / 9))
        else if a == 4 then ComponentAccept(d, ev, p.(aspectNum := 12, aspectDen := 5))
        else Handled(-1, ev.(props := p))
  }

  /** A video format as the component descriptor can carry it. */
  datatype Video = Video(height: int, aspectNum: int, aspectDen: int, tag: Byte, lang: seq<Byte>)

  predicate ValidVideo(v: Video)
  {
    && (v.height == 480 || v.height == 1080 || v.height == 720 || v.height == 240)
    && ((v.aspectNum, v.aspectDen) == (4, 3) || (v.aspectNum, v.aspectDen) == (16, 9) || (v.aspectNum, v.aspectDen) == (12, 5))
    && |v.lang| == 3
  }

  /** The component descriptor body for a video format (ARIB STD-B10 component_type codes). */
  function EncodeComponent(v: Video): (d: seq<Byte>)
    requires ValidVideo(v)
    ensures |d| == 6
  {
    var hi: Byte := if v.height == 480 then 0xa0 else if v.height == 1080 then 0xb0 else if v.height == 720 then 0xc0 else 0xd0;
    var lo: Byte := if v.aspectNum == 4 then 1 else if v.aspectNum == 16 then 3 else 4;
    [0x01, hi | lo, v.tag] + v.lang
  }

  /**
   * Decoding an encoded video format gives it back: height, aspect ratio,
   * tag and language; the width follows the aspect ratio (none for 12:5);
   * ws and hd are set only for the main video ES (tag 0).
   */
  lemma ComponentRoundTrip(v: Video, ev: EitEvent)
    requires ValidVideo(v)
    ensures var res := ComponentIsdb(EncodeComponent(v), ev);
      && res.r == 0
      && res.ev.props == NoProps.(tag := v.tag, height := v.height, aspectNum := v.aspectNum, aspectDen := v.aspectDen,
                                  width := if v.aspectNum == 12 then 0 else v.height * v.aspectNum / v.aspectDen, lang := v.lang)
      && (v.tag == 0 ==> res.ev.ws == (if v.aspectNum == 4 then 0 else 1) && res.ev.hd == (if v.height >= 720 then 1 else 0))
      && (v.tag != 0 ==> res.ev.ws == ev.ws && res.ev.hd == ev.hd)
  {
    var d := EncodeComponent(v);
    assert d[3..6] == v.lang;
  }

  /** The two HD formats have exact widths: 1920x1080 and 1280x720 at 16:9, 1440x1080 at 4:3. */
  lemma HdWidths(ev: EitEvent)
    ensures ComponentIsdb([0x01, 0xb3, 0, 0, 0, 0], ev).ev.props.width == 1920
    ensures ComponentIsdb([0x01, 0xc3, 0, 0, 0, 0], ev).ev.props.width == 1280
    ensures ComponentIsdb([0x01, 0xb1, 0, 0, 0, 0], ev).ev.props.width == 1440
  {
  }

  /** _eit_desc_component without ISDB: hd/ws/ad/st/ds flags from stream_content and component_type. */
  function ComponentDvb(d: seq<Byte>, ev: EitEvent): (res: Handled)
    ensures |d| < 6 <==> res.r == -1
    ensures res.r == 0 || res.r == -1
    ensures res.ev.(hd := ev.hd, ws := ev.ws, ad := ev.ad, st := ev.st, ds := ev.ds) == ev
    ensures res.ev.ws == ev.ws || res.ev.ws == 1
    ensures res.ev.ad == ev.ad || res.ev.ad == 1
    ensures res.ev.st == ev.st || res.ev.st == 1
    ensures res.ev.ds == ev.ds || res.ev.ds == 1
  {
    if |d| < 6 then Handled(-1, ev)
    else
      var c := d[0] & 0x0f;
      var t := d[1];
      if c == 0x1 then
        if t > 0x08 && t < 0x11 then
          Handled(0, if t != 0x09 && t != 0x0d then ev.(hd := 1, ws := 1) else ev.(hd := 1))
        else if t == 0x02 || t == 0x03 || t == 0x04 || t == 0x06 || t == 0x07 || t == 0x08 then Handled(0, ev.(ws := 1))
        else Handled(0, ev)
      else if c == 0x2 then
        Handled(0, if t == 0x40 || t == 0x41 then ev.(ad := 1) else ev)
      else if c == 0x3 then
        if t == 0x1 || (t >= 0x10 && t <= 0x14) || (t >= 0x20 && t <= 0x24) then Handled(0, ev.(st := 1))
        else if t == 0x30 || t == 0x31 then Handled(0, ev.(ds := 1))
        else Handled(0, ev)
      else if c == 0x5 then
        if t == 0x0b || t == 0x0c || t == 0x10 then Handled(0, ev.(hd := 1, ws := 1))
        else if t == 0x03 || t == 0x04 || t == 0x07 || t == 0x08 then Handled(0, ev.(ws := 1))
        else Handled(0, ev)
      else if c == 0x6 then
        Handled(0, if t == 0x40 || t == 0x44 then ev.(ad := 1) else ev)
      else if c == 0x9 then
        Handled(0, if t > 3 then ev.(ws := 1, hd := 2) else ev.(ws := 1))
      else Handled(0, ev)
  }

  // ---------------------------------------------------------------------
  // Content descriptor (0x54), ISDB branch

  /** The genre codes the content descriptor adds: the first byte of each 2-byte pair, when below 0xe0. */
  function ContentGenres(d: seq<Byte>): (g: seq<Byte>)
    ensures |g| <= |d| / 2
    ensures forall i :: 0 <= i < |g| ==> g[i] < 0xe0
    decreases |d|
  {
    if |d| > 1 then (if d[0] < 0xe0 then [d[0]] else []) + ContentGenres(d[2..]) else []
  }

  /** The record after the content descriptor. */
  function ContentSpec(d: seq<Byte>, ev: EitEvent): (ev': EitEvent)
    ensures ev'.(genre := ev.genre) == ev
    ensures ev.genre <= ev'.genre && |ev'.genre| <= |ev.genre| + |d| / 2
  {
    ev.(genre := ev.genre + ContentGenres(d))
  }

  /** One pair of the content descriptor, seen from offset i. */
  lemma ContentStep(d: seq<Byte>, i: nat)
    requires i + 1 < |d|
    ensures ContentGenres(d[i..]) == (if d[i] < 0xe0 then [d[i]] else []) + ContentGenres(d[i + 2..])
  {
    assert d[i..][2..] == d[i + 2..];
  }

  /**
   * _eit_desc_content: walk the 2-byte pairs while more than one byte is
   * left; program attributes (0xe0-0xef) and codes from 0xf0 are skipped,
   * every other first byte is added as a genre.
   */
  method DescContent(d: seq<Byte>, ev: EitEvent) returns (r: int, ev': EitEvent)
    ensures r == 0 && ev' == ContentSpec(d, ev)
  {
    ev' := ev;
    var len := |d|;
    var i := 0;
    while len > 1
      invariant 0 <= i <= |d| && len == |d| - i
      invariant ev'.(genre := ev.genre) == ev
      invariant ev'.genre + ContentGenres(d[i..]) == ev.genre + ContentGenres(d)
      decreases len
    {
      ContentStep(d, i);
      hide ContentGenres;
      if d[i] & 0xf0 == 0xe0 {
      } else if d[i] < 0xe0 {
        ev' := ev'.(genre := ev'.genre + [d[i]]);
      }
      len := len - 2;
      i := i + 2;
    }
    r := 0;
  }

  /** The content descriptor body for a list of genre codes (user nibbles zero). */
  function EncodeGenres(gs: seq<Byte>): (d: seq<Byte>)
    ensures |d| == 2 * |gs|
  {
    if gs == [] then [] else [gs[0], 0] + EncodeGenres(gs[1..])
  }

  /** Genre codes below 0xe0 survive an encode and decode unchanged. */
  lemma {:induction false} GenresRoundTrip(gs: seq<Byte>)
    requires forall i :: 0 <= i < |gs| ==> gs[i] < 0xe0
    ensures ContentGenres(EncodeGenres(gs)) == gs
  {
    if gs != [] {
      var d := EncodeGenres(gs);
      assert d[2..] == EncodeGenres(gs[1..]);
      GenresRoundTrip(gs[1..]);
    }
  }

  // ---------------------------------------------------------------------
  // Parental rating descriptor (0x55)

  /** A rating byte that counts: 1 to 15. */
  predicate Rated(b: Byte)
  {
    b != 0 && b < 0x10
  }

  /** How many of the 4-byte entries have a counted byte at offset off, while more than 3 bytes are left. */
  function RatedCount(d: seq<Byte>, off: nat): nat
    requires off < 4
    decreases |d|
  {
    if |d| > 3 then (if Rated(d[off]) then 1 else 0) + RatedCount(d[4..], off) else 0
  }

  /** The sum of (byte + 3) over those bytes. */
  function RatedSum(d: seq<Byte>, off: nat): nat
    requires off < 4
    decreases |d|
  {
    if |d| > 3 then (if Rated(d[off]) then d[off] as nat + 3 else 0) + RatedSum(d[4..], off) else 0
  }

  /** The record after the parental rating descriptor, reading the byte at offset off of each entry. */
  function ParentalSpec(d: seq<Byte>, ev: EitEvent, off: nat): (ev': EitEvent)
    requires off < 4
    ensures ev'.(parental := ev.parental) == ev
    ensures ev'.parental != ev.parental ==> RatedCount(d, off) > 0
  {
    var cnt := RatedCount(d, off);
    if cnt > 0 then ev.(parental := (RatedSum(d, off) / cnt) % 256) else ev
  }

  /**
   * The loop of _eit_desc_parental, reading the byte at offset off of each
   * 4-byte entry: count the bytes from 1 to 15, sum them plus 3, and store
   * the truncated mean (as a uint8) if any was counted.
   */
  method DescParentalAt(d: seq<Byte>, ev: EitEvent, off: nat) returns (r: int, ev': EitEvent)
    requires off < 4
    ensures r == 0 && ev' == ParentalSpec(d, ev, off)
  {
    var cnt := 0;
    var sum := 0;
    var i := 0;
    var len := |d|;
    while len > 3
      invariant 0 <= i <= |d| && len == |d| - i
      invariant cnt + RatedCount(d[i..], off) == RatedCount(d, off)
      invariant sum + RatedSum(d[i..], off) == RatedSum(d, off)
      decreases len
    {
      assert d[i..][4..] == d[i + 4..];
      assert d[i..][off] == d[i + off];
      if d[i + off] != 0 && d[i + off] < 0x10 {
        cnt := cnt + 1;
        sum := sum + (d[i + off] as int + 3);
      }
      len := len - 4;
      i := i + 4;
    }
    ev' := ev;
    if cnt != 0 {
      ev' := ev.(parental := (sum / cnt) % 256);
    }
    r := 0;
  }

  /** _eit_desc_parental as written: the byte at offset 0 of each entry, the first letter of the country code. */
  method DescParentalAsWritten(d: seq<Byte>, ev: EitEvent) returns (r: int, ev': EitEvent)
    ensures r == 0 && ev' == ParentalSpec(d, ev, 0)
  {
    r, ev' := DescParentalAt(d, ev, 0);
  }

  /** _eit_desc_parental as intended: the rating byte at offset 3 of each entry, after the country code. */
  method DescParental(d: seq<Byte>, ev: EitEvent) returns (r: int, ev': EitEvent)
    ensures r == 0 && ev' == ParentalSpec(d, ev, 3)
  {
    r, ev' := DescParentalAt(d, ev, 3);
  }

  lemma {:induction false} RatedBounds(d: seq<Byte>, off: nat)
    requires off < 4
    ensures 4 * RatedCount(d, off) <= RatedSum(d, off) <= 18 * RatedCount(d, off)
    decreases |d|
  {
    if |d| > 3 {
      RatedBounds(d[4..], off);
    }
  }

  /** A stored rating is the mean of (rating + 3), so it lies between 4 and 18 and the uint8 cast loses nothing. */
  lemma ParentalRange(d: seq<Byte>, ev: EitEvent, off: nat)
    requires off < 4
    ensures var ev' := ParentalSpec(d, ev, off);
      RatedCount(d, off) > 0 ==> 4 <= ev'.parental <= 18 && ev'.parental == RatedSum(d, off) / RatedCount(d, off)
    ensures RatedCount(d, off) == 0 ==> ParentalSpec(d, ev, off) == ev
  {
    var cnt := RatedCount(d, off);
    var sum := RatedSum(d, off);
    RatedBounds(d, off);
    if cnt > 0 {
      DivBounds(sum, cnt, 4, 18);
    }
  }

  lemma DivBounds(sum: nat, cnt: nat, lo: nat, hi: nat)
    requires cnt > 0 && lo * cnt <= sum <= hi * cnt
    ensures lo <= sum / cnt <= hi
  {
    var q := sum / cnt;
    assert sum == q * cnt + sum % cnt;
    MulCancel(q, hi, cnt);
    MulCancelStrict(lo, q + 1, cnt);
  }

  lemma MulCancel(a: int, b: int, c: int)
    requires c > 0 && a * c <= b * c
    ensures a <= b
  {
  }

  lemma MulCancelStrict(a: int, b: int, c: int)
    requires c > 0 && a * c < b * c
    ensures a < b
  {
  }

  /** Reading offset 0 counts nothing when every entry starts with a country code, so the rating is never stored. */
  lemma {:induction false} AsWrittenIgnoresRatings(d: seq<Byte>)
    requires forall k :: 0 <= k && k % 4 == 0 && k + 3 < |d| ==> 0x41 <= d[k] <= 0x5a
    ensures RatedCount(d, 0) == 0
    decreases |d|
  {
    if |d| > 3 {
      assert 0x41 <= d[0];
      forall k | 0 <= k && k % 4 == 0 && k + 3 < |d| - 4 ensures 0x41 <= d[4..][k] <= 0x5a {
        assert d[4..][k] == d[k + 4];
      }
      AsWrittenIgnoresRatings(d[4..]);
    }
  }

  /** One Japanese entry with rating 5 (minimum age 8): as written nothing is stored; as intended 8 is. */
  lemma ParentalFinding(ev: EitEvent)
    ensures ParentalSpec([0x4a, 0x50, 0x4e, 0x05], ev, 0) == ev
    ensures ParentalSpec([0x4a, 0x50, 0x4e, 0x05], ev, 3) == ev.(parental := 8)
  {
    var d: seq<Byte> := [0x4a, 0x50, 0x4e, 0x05];
    assert d[4..] == [];
  }

  // ---------------------------------------------------------------------
  // Audio component descriptor (0xC4, ARIB STD-B10)

  /** quality/sampling_rate code to the sri stored: 3 -> 6, 5 -> 5, 7 -> 3, anything else 0x0f. */
  function SamplingIndex(s: Byte): (sri: int)
    ensures sri in {6, 5, 3, 0x0f}
  {
    if s == 3 then 6 else if s == 5 then 5 else if s == 7 then 3 else 0x0f
  }

  /** component_type to the channel count: 1 -> 1, 2 and 3 -> 2, 7/8/9 -> 4/5/6, anything else 0. */
  function Channels(t: Byte): (n: int)
    ensures 0 <= n <= 6
  {
    if t == 1 then 1 else if t == 2 || t == 3 then 2 else if t == 7 || t == 8 || t == 9 then t as int - 3 else 0
  }

  /**
   * _eit_desc_audio_component as written: the flags are read from byte 6,
   * the language from bytes 7-9 and the second language from bytes 9-11.
   * A 9-byte descriptor passes the length check, yet byte 9 lies past it;
   * `next` stands for whatever byte follows the descriptor in memory.
   */
  function AudioComponentAsWritten(d: seq<Byte>, next: Byte, ev: EitEvent): (res: Handled)
    ensures res.r == 0 || res.r == -1
    ensures |d| < 9 ==> res == Handled(-1, ev)
    ensures res.ev.(props := ev.props) == ev
    ensures res.r == 0 <==> |d| >= 9 && d[0] & 0x0f == 0x02 && d[3] == 0x0f && (d[6] & 0x80 == 0 || |d| >= 12)
    ensures |d| >= 9 ==> res.ev.props.tag == d[2]
    ensures |d| >= 9 && d[0] & 0x0f == 0x02 && d[3] == 0x0f ==>
      && res.ev.props.isDmono == (d[1] == 0x02)
      && res.ev.props.channels == Channels(d[1])
      && res.ev.props.sri == SamplingIndex((d[6] & 0x0e) >> 1)
    ensures res.r == 0 ==> res.ev.props.lang == d[7..9] + [if |d| > 9 then d[9] else next]
    ensures res.r == 0 && d[6] & 0x80 != 0 ==> res.ev.props.langSub == d[9..12]
  {
    if |d| < 9 then Handled(-1, ev)
    else
      var p := NoProps.(tag := d[2]);
      if d[0] & 0x0f != 0x02 || d[3] != 0x0f then Handled(-1, ev.(props := p))
      else
        var p := p.(isDmono := d[1] == 0x02, channels := Channels(d[1]), sri := SamplingIndex((d[6] & 0x0e) >> 1));
        var multi := d[6] & 0x80 != 0;
        if multi && |d| < 12 then Handled(-1, ev.(props := p))
        else
          var b9 := if |d| > 9 then d[9] else next;
          var p := p.(lang := [d[7], d[8], b9]);
          Handled(0, ev.(props := if multi then p.(langSub := d[9..12]) else p))
  }

  /** A 9-byte descriptor: what the language code ends in is decided by the byte after the descriptor. */
  lemma AudioOverRead(ev: EitEvent)
    ensures AudioComponentAsWritten([0x02, 0x01, 0, 0x0f, 0, 0, 0, 0, 0], 0x41, ev).ev.props.lang
         != AudioComponentAsWritten([0x02, 0x01, 0, 0x0f, 0, 0, 0, 0, 0], 0x42, ev).ev.props.lang
  {
  }

  /**
   * _eit_desc_audio_component with the layout of ARIB STD-B10: byte 5
   * holds the multi-lingual flag and the sampling rate, bytes 6-8 the
   * language and (multi-lingual only) bytes 9-11 the second language.
   */
  function AudioComponent(d: seq<Byte>, ev: EitEvent): (res: Handled)
    ensures res.r == 0 || res.r == -1
    ensures |d| < 9 ==> res == Handled(-1, ev)
    ensures res.ev.(props := ev.props) == ev
    ensures res.r == 0 <==> |d| >= 9 && d[0] & 0x0f == 0x02 && d[3] == 0x0f && (d[5] & 0x80 == 0 || |d| >= 12)
    ensures |d| >= 9 ==> res.ev.props.tag == d[2]
    ensures |d| >= 9 && d[0] & 0x0f == 0x02 && d[3] == 0x0f ==>
      && res.ev.props.isDmono == (d[1] == 0x02)
      && res.ev.props.channels == Channels(d[1])
      && res.ev.props.sri == SamplingIndex((d[5] & 0x0e) >> 1)
    ensures res.r == 0 ==> res.ev.props.lang == d[6..9]
    ensures res.r == 0 && d[5] & 0x80 != 0 ==> res.ev.props.langSub == d[9..12]
  {
    if |d| < 9 then Handled(-1, ev)
    else
      var p := NoProps.(tag := d[2]);
      if d[0] & 0x0f != 0x02 || d[3] != 0x0f then Handled(-1, ev.(props := p))
      else
        var p := p.(isDmono := d[1] == 0x02, channels := Channels(d[1]), sri := SamplingIndex((d[5] & 0x0e) >> 1));
        var multi := d[5] & 0x80 != 0;
        if multi && |d| < 12 then Handled(-1, ev.(props := p))
        else
          var p := p.(lang := d[6..9]);
          Handled(0, ev.(props := if multi then p.(langSub := d[9..12]) else p))
  }

  /** An AAC audio component as ARIB STD-B10 lays it out. */
  datatype Audio = Audio(componentType: Byte, tag: Byte, simulcast: Byte, sampling: Byte, lang: seq<Byte>, langSub: Option<seq<Byte>>)

  predicate ValidAudio(a: Audio)
  {
    a.sampling < 8 && |a.lang| == 3 && (a.langSub.Some? ==> |a.langSub.value| == 3)
  }

  function EncodeAudio(a: Audio): (d: seq<Byte>)
    requires ValidAudio(a)
    ensures |d| == if a.langSub.Some? then 12 else 9
  {
    var flags: Byte := (if a.langSub.Some? then 0x80 else 0) | (a.sampling << 1);
    [0x02, a.componentType, a.tag, 0x0f, a.simulcast, flags] + a.lang + (if a.langSub.Some? then a.langSub.value else [])
  }

  /** Every field of an encoded audio component comes back, mapped through the channel and sampling tables. */
  lemma AudioRoundTrip(a: Audio, ev: EitEvent)
    requires ValidAudio(a)
    ensures var res := AudioComponent(EncodeAudio(a), ev);
      && res.r == 0
      && res.ev.props == NoProps.(tag := a.tag, isDmono := a.componentType == 2, channels := Channels(a.componentType),
                                  sri := SamplingIndex(a.sampling), lang := a.lang,
                                  langSub := if a.langSub.Some? then a.langSub.value else NoProps.langSub)
  {
    var d := EncodeAudio(a);
    var flags: Byte := (if a.langSub.Some? then 0x80 else 0) | (a.sampling << 1);
    assert d[5] == flags;
    assert (flags & 0x0e) >> 1 == a.sampling && (flags & 0x80 != 0 <==> a.langSub.Some?) by {
      SamplingBits(a.sampling, a.langSub.Some?);
    }
    assert d[6..9] == a.lang;
    if a.langSub.Some? {
      assert d[9..12] == a.langSub.value;
    }
  }

  lemma SamplingBits(s: Byte, multi: bool)
    requires s < 8
    ensures var flags: Byte := (if multi then 0x80 else 0) | (s << 1);
      (flags & 0x0e) >> 1 == s && (flags & 0x80 != 0 <==> multi)
  {
  }

  // ---------------------------------------------------------------------
  // The descriptor walk of _eit_process_event

  /**
   * The text decoders (short event, extended event, CRID) are not modelled;
   * they return 0 or -1, and this set holds the (tag, body) pairs for which
   * they return -1.
   */
  type TextRejects = set<(Byte, seq<Byte>)>

  /** What a text decoder returns for one descriptor. */
  function TextResult(tag: Byte, body: seq<Byte>, text: TextRejects): (r: int)
    ensures r == 0 || r == -1
    ensures r < 0 <==> (tag, body) in text
  {
    if (tag, body) in text then -1 else 0
  }

  /**
   * Which of the three spots where the code as written differs from its
   * evident intent take the corrected behaviour: the byte of a parental
   * rating entry that is read, the return value after an event-group
   * descriptor (the code leaves `r` as it was), and the audio component
   * layout.
   */
  datatype Fixes = Fixes(parental: bool, eventGroup: bool, audio: bool)

  /** The code as written. */
  const AsWritten := Fixes(false, false, false)

  /** The code with all three corrections. */
  const Intended := Fixes(true, true, true)

  /**
   * What the code as written reads that the section does not determine:
   * the value `r` holds before any handler has set it, and the byte that
   * follows the section data in memory.
   */
  datatype Undefined = Undefined(r0: int, past: Byte)

  /**
   * One descriptor, dispatched on its tag; `next` is the byte that follows
   * its body in memory, which only the audio decoder as written reads.
   */
  function Handle(tag: Byte, body: seq<Byte>, next: Byte, ev: EitEvent, r: int, text: TextRejects, fx: Fixes): Handled
  {
    if tag == TagShortEvent || tag == TagExtEvent || tag == TagCrid then Handled(TextResult(tag, body, text), ev)
    else if tag == TagContent then Handled(0, ContentSpec(body, ev))
    else if tag == TagComponent then ComponentIsdb(body, ev)
    else if tag == TagParental then Handled(0, ParentalSpec(body, ev, if fx.parental then 3 else 0))
    else if tag == TagEventGroup then Handled(if fx.eventGroup then 0 else r, ev.(group := body))
    else if tag == TagAudioComponent then
      if fx.audio then AudioComponent(body, ev) else AudioComponentAsWritten(body, next, ev)
    else Handled(0, ev)
  }

  /**
   * Every handler returns 0 or -1, except that the event-group case as
   * written hands on the `r` it found; genres are only ever added, each
   * handler touches only its own part of the record, and a tag without a
   * handler changes nothing.
   */
  lemma HandleEffects(tag: Byte, body: seq<Byte>, next: Byte, ev: EitEvent, r: int, text: TextRejects, fx: Fixes)
    ensures var h := Handle(tag, body, next, ev, r, text, fx);
      && (h.r == 0 || h.r == -1 || (tag == TagEventGroup && !fx.eventGroup && h.r == r))
      && ev.genre <= h.ev.genre
      && (h.ev.genre != ev.genre ==> tag == TagContent)
      && (h.ev.parental != ev.parental ==> tag == TagParental)
      && (h.ev.group != ev.group ==> tag == TagEventGroup && h.ev.group == body)
      && (tag !in {TagShortEvent, TagExtEvent, TagCrid, TagContent, TagComponent, TagParental, TagEventGroup, TagAudioComponent}
          ==> h == Handled(0, ev))
  {
  }

  /**
   * The descriptor loop over the dllen bytes of the loop: while more than
   * 2 bytes are left, take a tag and a length; stop if the body does not
   * fit or its handler fails.  `past` is the byte after the loop in memory.
   */
  function Walk(dl: seq<Byte>, ev: EitEvent, r: int, text: TextRejects, fx: Fixes, past: Byte): EitEvent
    decreases |dl|
  {
    if |dl| <= 2 then ev
    else
      var dlen := dl[1] as int;
      if |dl| - 2 < dlen then ev
      else
        var next := if 2 + dlen < |dl| then dl[2 + dlen] else past;
        var h := Handle(dl[0], dl[2..2 + dlen], next, ev, r, text, fx);
        if h.r < 0 then h.ev else Walk(dl[2 + dlen..], h.ev, h.r, text, fx, past)
  }
  lemma PrefixTrans(a: seq<Byte>, b: seq<Byte>, c: seq<Byte>)
    requires a <= b && b <= c
    ensures a <= c
  {
  }

  /** Genres only accumulate along the walk. */
  lemma {:induction false} WalkKeepsGenres(dl: seq<Byte>, ev: EitEvent, r: int, text: TextRejects, fx: Fixes, past: Byte)
    ensures ev.genre <= Walk(dl, ev, r, text, fx, past).genre
    decreases |dl|
  {
    hide *;
    WalkStep(dl, ev, r, text, fx, past);
    if |dl| > 2 && |dl| - 2 >= dl[1] as int {
      var dlen := dl[1] as int;
      var next := if 2 + dlen < |dl| then dl[2 + dlen] else past;
      var h := Handle(dl[0], dl[2..2 + dlen], next, ev, r, text, fx);
      HandleEffects(dl[0], dl[2..2 + dlen], next, ev, r, text, fx);
      if h.r >= 0 {
        WalkKeepsGenres(dl[2 + dlen..], h.ev, h.r, text, fx, past);
        PrefixTrans(ev.genre, h.ev.genre, Walk(dl[2 + dlen..], h.ev, h.r, text, fx, past).genre);
      }
    }
  }



  /** One tag-length-value descriptor: its tag, its length byte and its body. */
  datatype Descriptor = Descriptor(tag: Byte, length: Byte, body: seq<Byte>)

  /** Every length byte gives the length of its body. */
  predicate WellFormed(ds: seq<Descriptor>)
  {
    forall i :: 0 <= i < |ds| ==> |ds[i].body| == ds[i].length as int
  }

  /** The descriptors the walk takes from the loop, in order. */
  function Descriptors(dl: seq<Byte>): (ds: seq<Descriptor>)
    ensures WellFormed(ds)
    decreases |dl|
  {
    if |dl| <= 2 || |dl| - 2 < dl[1] as int then []
    else [Descriptor(dl[0], dl[1], dl[2..2 + dl[1] as int])] + Descriptors(dl[2 + dl[1] as int..])
  }

  /** The byte after the last descriptor split off: the first byte the walk leaves unread, or `past`. */
  function AfterLoop(dl: seq<Byte>, past: Byte): Byte
    decreases |dl|
  {
    if |dl| <= 2 || |dl| - 2 < dl[1] as int then (if |dl| > 0 then dl[0] else past)
    else AfterLoop(dl[2 + dl[1] as int..], past)
  }

  /** The descriptors written out as tag, length and body. */
  function Serialize(ds: seq<Descriptor>): seq<Byte>
  {
    if ds == [] then [] else [ds[0].tag, ds[0].length] + ds[0].body + Serialize(ds[1..])
  }

  /**
   * Apply the handlers to the descriptors in order, stopping after the
   * first that fails; each body is followed by the next tag, the last by
   * `after`.
   */
  function Apply(ds: seq<Descriptor>, ev: EitEvent, r: int, text: TextRejects, fx: Fixes, after: Byte): EitEvent
  {
    if ds == [] then ev
    else
      var next := if |ds| > 1 then ds[1].tag else after;
      var h := Handle(ds[0].tag, ds[0].body, next, ev, r, text, fx);
      if h.r < 0 then h.ev else Apply(ds[1..], h.ev, h.r, text, fx, after)
  }

  /** The first descriptor split off, what follows it, and the byte after its body. */
  lemma FirstDescriptor(dl: seq<Byte>, past: Byte)
    requires |dl| > 2 && |dl| - 2 >= dl[1] as int
    ensures var dlen := dl[1] as int;
      var ds := Descriptors(dl);
      && |ds| >= 1 && ds[0] == Descriptor(dl[0], dl[1], dl[2..2 + dlen])
      && ds[1..] == Descriptors(dl[2 + dlen..])
      && AfterLoop(dl, past) == AfterLoop(dl[2 + dlen..], past)
      && (if 2 + dlen < |dl| then dl[2 + dlen] else past) == (if |ds| > 1 then ds[1].tag else AfterLoop(dl, past))
  {
    var dlen := dl[1] as int;
    var rest := dl[2 + dlen..];
    var ds := Descriptors(dl);
    assert ds[1..] == Descriptors(rest);
    if |ds| > 1 {
      assert |rest| > 2;
      assert ds[1].tag == rest[0] == dl[2 + dlen];
    }
  }

  /** The walk is the handlers applied to the descriptors the loop splits off. */
  lemma {:induction false} WalkIsApply(dl: seq<Byte>, ev: EitEvent, r: int, text: TextRejects, fx: Fixes, past: Byte)
    ensures Walk(dl, ev, r, text, fx, past) == Apply(Descriptors(dl), ev, r, text, fx, AfterLoop(dl, past))
    decreases |dl|
  {
    if |dl| > 2 && |dl| - 2 >= dl[1] as int {
      FirstDescriptor(dl, past);
      hide Handle, Descriptors, AfterLoop;
      var dlen := dl[1] as int;
      var next := if 2 + dlen < |dl| then dl[2 + dlen] else past;
      var h := Handle(dl[0], dl[2..2 + dlen], next, ev, r, text, fx);
      if h.r >= 0 {
        WalkIsApply(dl[2 + dlen..], h.ev, h.r, text, fx, past);
      }
    }
  }

  lemma SerializeCons(d: Descriptor, ds: seq<Descriptor>)
    ensures Serialize([d] + ds) == [d.tag, d.length] + d.body + Serialize(ds)
  {
    assert ([d] + ds)[1..] == ds;
  }

  lemma HeadPrefix<T>(dl: seq<T>, n: nat)
    requires 2 + n <= |dl|
    ensures [dl[0], dl[1]] + dl[2..2 + n] == dl[..2 + n]
  {
  }

  lemma PrefixJoin<T>(dl: seq<T>, a: nat, tail: seq<T>)
    requires a <= |dl| && |tail| <= |dl| - a && tail == dl[a..][..|tail|]
    ensures dl[..a] + tail == dl[..a + |tail|]
  {
  }

  /** The loop is its split-off descriptors written back, then what the walk leaves unread. */
  predicate PrefixOfLoop(dl: seq<Byte>)
  {
    |Serialize(Descriptors(dl))| <= |dl| && Serialize(Descriptors(dl)) == dl[..|Serialize(Descriptors(dl))|]
  }

  lemma WithinCons(dl: seq<Byte>)
    requires |dl| > 2 && |dl| - 2 >= dl[1] as int
    requires PrefixOfLoop(dl[2 + dl[1] as int..])
    ensures PrefixOfLoop(dl)
  {
    var dlen := dl[1] as int;
    var rest := dl[2 + dlen..];
    var tail := Serialize(Descriptors(rest));
    assert Serialize(Descriptors(dl)) == [dl[0], dl[1]] + dl[2..2 + dlen] + tail by {
      SerializeCons(Descriptor(dl[0], dl[1], dl[2..2 + dlen]), Descriptors(rest));
    }
    HeadPrefix(dl, dlen);
    PrefixJoin(dl, 2 + dlen, tail);
  }

  /** The descriptors split off, written back, are a prefix of the loop: the walk reads nothing past dllen. */
  lemma {:induction false} DescriptorsWithin(dl: seq<Byte>)
    ensures PrefixOfLoop(dl)
    decreases |dl|
  {
    if |dl| > 2 && |dl| - 2 >= dl[1] as int {
      DescriptorsWithin(dl[2 + dl[1] as int..]);
      WithinCons(dl);
    }
  }

  /** Well-formed descriptors whose last body is not empty are split off the loop exactly as they were written. */
  lemma {:induction false} DescriptorsRoundTrip(ds: seq<Descriptor>)
    requires WellFormed(ds)
    requires ds != [] ==> |ds[|ds| - 1].body| > 0
    ensures Descriptors(Serialize(ds)) == ds
  {
    if ds != [] {
      var d0 := ds[0];
      assert ds == [d0] + ds[1..];
      SerializeCons(d0, ds[1..]);
      var s := Serialize(ds);
      var rest := Serialize(ds[1..]);
      var n := d0.length as int;
      assert s[1] == d0.length;
      assert s[2..2 + n] == d0.body;
      assert s[2 + n..] == rest;
      assert |s| > 2 by {
        if ds[1..] == [] {
          assert |d0.body| > 0;
        } else {
          assert |rest| >= 2;
        }
      }
      DescriptorsRoundTrip(ds[1..]);
    }
  }

  /** A trailing descriptor with an empty body is never handled: only 2 bytes are left for it. */
  lemma TrailingEmptyIgnored(tag: Byte)
    ensures Descriptors(Serialize([Descriptor(tag, 0, [])])) == []
  {
  }

  /**
   * The finding on the event-group descriptor, with the other two spots
   * corrected: when it comes first the code tests an `r` that nothing has
   * set; with a negative leftover the walk stops there and the parental
   * rating after it is lost, with a leftover of 0 it is stored, and with
   * the correction it is stored whatever the leftover.
   */
  lemma EventGroupFinding(text: TextRejects, past: Byte)
    ensures var dl: seq<Byte> := [0xd6, 0, 0x55, 4, 0x4a, 0x50, 0x4e, 0x05];
      && Walk(dl, NoEvent, -1, text, Intended.(eventGroup := false), past).parental == 0
      && Walk(dl, NoEvent, 0, text, Intended.(eventGroup := false), past).parental == 8
      && Walk(dl, NoEvent, -1, text, Intended, past).parental == 8
  {
    var dl: seq<Byte> := [0xd6, 0, 0x55, 4, 0x4a, 0x50, 0x4e, 0x05];
    var body: seq<Byte> := [0x4a, 0x50, 0x4e, 0x05];
    assert dl[2..2] == [];
    assert dl[2..] == [0x55, 4] + body;
    assert dl[2..][2..6] == body;
    assert dl[2..][6..] == [];
    assert body[4..] == [];
  }

  /** With the event-group correction a handler's result does not depend on the r it is given. */
  lemma HandleIgnoresLeftover(tag: Byte, body: seq<Byte>, next: Byte, ev: EitEvent, r1: int, r2: int, text: TextRejects, fx: Fixes)
    requires fx.eventGroup
    ensures Handle(tag, body, next, ev, r1, text, fx) == Handle(tag, body, next, ev, r2, text, fx)
  {
  }

  /** With the event-group correction the walk no longer depends on the leftover r. */
  lemma WalkFixedIgnoresLeftover(dl: seq<Byte>, ev: EitEvent, r1: int, r2: int, text: TextRejects, fx: Fixes, past: Byte)
    requires fx.eventGroup
    ensures Walk(dl, ev, r1, text, fx, past) == Walk(dl, ev, r2, text, fx, past)
  {
    if |dl| > 2 && |dl| - 2 >= dl[1] as int {
      var dlen := dl[1] as int;
      var next := if 2 + dlen < |dl| then dl[2 + dlen] else past;
      HandleIgnoresLeftover(dl[0], dl[2..2 + dlen], next, ev, r1, r2, text, fx);
      hide Handle;
    }
  }

  /** The handler of one descriptor, dispatching to the decoders as written or corrected. */
  method HandleDescriptor(tag: Byte, body: seq<Byte>, next: Byte, ev: EitEvent, r: int, text: TextRejects, fx: Fixes)
    returns (r': int, ev': EitEvent)
    ensures Handled(r', ev') == Handle(tag, body, next, ev, r, text, fx)
  {
    if tag == TagShortEvent || tag == TagExtEvent || tag == TagCrid {
      r', ev' := TextResult(tag, body, text), ev;
    } else if tag == TagContent {
      r', ev' := DescContent(body, ev);
    } else if tag == TagComponent {
      var h := ComponentIsdb(body, ev);
      r', ev' := h.r, h.ev;
    } else if tag == TagParental {
      if fx.parental {
        r', ev' := DescParental(body, ev);
      } else {
        r', ev' := DescParentalAsWritten(body, ev);
      }
    } else if tag == TagEventGroup {
      r', ev' := if fx.eventGroup then 0 else r, ev.(group := body);
    } else if tag == TagAudioComponent {
      var h := if fx.audio then AudioComponent(body, ev) else AudioComponentAsWritten(body, next, ev);
      r', ev' := h.r, h.ev;
    } else {
      r', ev' := 0, ev;
    }
  }

  // ---------------------------------------------------------------------
  // Events and the event loop

  /** The 12-bit descriptors_loop_length of an event. */
  function LoopLength(e: seq<Byte>): (n: nat)
    requires |e| >= 12
    ensures n < 4096
  {
    (((e[10] & 0x0f) as bv16 << 8) | e[11] as bv16) as nat
  }

  /** What _eit_process_event returns and the record it hands to the database update, if it gets that far. */
  datatype Processed = Processed(r: int, ev: Option<EitEvent>)

  /**
   * _eit_process_event: -1 for an event shorter than its 12-byte header
   * or whose descriptor loop runs past the data; otherwise the walk fills a
   * cleared record, which goes to the database update, and the event's
   * length 12 + dllen is returned unless that update broke off.  The update
   * is an input here: `refused` holds the events whose loop over the
   * service's channels breaks off.  `e` runs to the end of the section
   * data, so the byte after the loop is e[12 + dllen] or, at the very end,
   * the byte past the data.
   */
  function ProcessEventSpec(e: seq<Byte>, text: TextRejects, refused: set<seq<Byte>>, fx: Fixes, u: Undefined): (p: Processed)
    ensures p.r == -1 || 12 <= p.r <= |e|
    ensures p.ev.Some? <==> |e| >= 12 && LoopLength(e) <= |e| - 12
    ensures p.r < 0 <==> p.ev.None? || e in refused
    ensures p.r >= 0 ==> p.r == 12 + LoopLength(e)
  {
    if |e| < 12 then Processed(-1, None)
    else
      var dll := LoopLength(e);
      if |e| - 12 < dll then Processed(-1, None)
      else
        var past := if 12 + dll < |e| then e[12 + dll] else u.past;
        var ev := Walk(e[12..12 + dll], NoEvent, u.r0, text, fx, past);
        Processed(if e !in refused then 12 + dll else -1, Some(ev))
  }

  /**
   * The parental finding seen from a whole event: one Japanese entry rated
   * 5 in a 6-byte loop.  As written the record handed on has no rating;
   * corrected it has 8, whatever the undefined inputs.
   */
  lemma ProcessEventFinding(text: TextRejects, refused: set<seq<Byte>>, u: Undefined)
    ensures var e: seq<Byte> := [0, 0, 0, 0, 0, 0, 0, 0, 0, 0, 0, 0x06, 0x55, 0x04, 0x4a, 0x50, 0x4e, 0x05];
      && ProcessEventSpec(e, text, refused, AsWritten, u).ev == Some(NoEvent)
      && ProcessEventSpec(e, text, refused, Intended, u).ev == Some(NoEvent.(parental := 8))
  {
    var e: seq<Byte> := [0, 0, 0, 0, 0, 0, 0, 0, 0, 0, 0, 0x06, 0x55, 0x04, 0x4a, 0x50, 0x4e, 0x05];
    var dl: seq<Byte> := [0x55, 0x04, 0x4a, 0x50, 0x4e, 0x05];
    var body: seq<Byte> := [0x4a, 0x50, 0x4e, 0x05];
    assert LoopLength(e) == 6;
    assert e[12..18] == dl;
    assert dl[2..6] == body && dl[6..] == [];
    assert body[4..] == [];
  }

  /** One step of the walk, at the front of the loop bytes. */
  lemma WalkStep(q: seq<Byte>, ev: EitEvent, r: int, text: TextRejects, fx: Fixes, past: Byte)
    ensures |q| <= 2 ==> Walk(q, ev, r, text, fx, past) == ev
    ensures 2 < |q| ==> var dlen := q[1] as int;
      Walk(q, ev, r, text, fx, past) ==
        if |q| - 2 < dlen then ev
        else
          var next := if 2 + dlen < |q| then q[2 + dlen] else past;
          var h := Handle(q[0], q[2..2 + dlen], next, ev, r, text, fx);
          if h.r < 0 then h.ev else Walk(q[2 + dlen..], h.ev, h.r, text, fx, past)
  {
    hide Handle;
  }

  /** The tag, length, body, next byte and rest of one step, seen from offset p of the loop bytes. */
  lemma SliceFrom(dl: seq<Byte>, p: nat)
    requires p + 2 < |dl|
    ensures var q, dlen := dl[p..], dl[p + 1] as int;
      && q[0] == dl[p] && q[1] == dl[p + 1]
      && (p + 2 + dlen <= |dl| ==>
            && q[2..2 + dlen] == dl[p + 2..p + 2 + dlen]
            && q[2 + dlen..] == dl[p + 2 + dlen..]
            && (2 + dlen < |q| <==> p + 2 + dlen < |dl|)
            && (p + 2 + dlen < |dl| ==> q[2 + dlen] == dl[p + 2 + dlen]))
  {
  }

  /** One step of the walk, on the loop bytes from p. */
  lemma WalkFrom(dl: seq<Byte>, p: nat, ev: EitEvent, r: int, text: TextRejects, fx: Fixes, past: Byte)
    requires p + 2 < |dl|
    ensures var dlen := dl[p + 1] as int;
      Walk(dl[p..], ev, r, text, fx, past) ==
        if |dl| - p - 2 < dlen then ev
        else
          var next := if p + 2 + dlen < |dl| then dl[p + 2 + dlen] else past;
          var h := Handle(dl[p], dl[p + 2..p + 2 + dlen], next, ev, r, text, fx);
          if h.r < 0 then h.ev else Walk(dl[p + 2 + dlen..], h.ev, h.r, text, fx, past)
  {
    hide *;
    WalkStep(dl[p..], ev, r, text, fx, past);
    SliceFrom(dl, p);
  }

  /** The descriptor loop of _eit_process_event over the dllen bytes dl, starting from the given r. */
  method WalkDescriptors(dl: seq<Byte>, r0: int, text: TextRejects, fx: Fixes, past: Byte) returns (rec: EitEvent)
    ensures rec == Walk(dl, NoEvent, r0, text, fx, past)
  {
    var dllen := |dl|;
    var p := 0;
    rec := NoEvent;
    var r := r0;
    while dllen > 2
      invariant 0 <= p <= |dl| && dllen == |dl| - p
      invariant Walk(dl[p..], rec, r, text, fx, past) == Walk(dl, NoEvent, r0, text, fx, past)
      decreases dllen
    {
      WalkFrom(dl, p, rec, r, text, fx, past);
      var dtag := dl[p];
      var dlen := dl[p + 1] as int;
      dllen := dllen - 2;
      p := p + 2;
      if dllen < dlen {
        break;
      }
      var next := if p + dlen < |dl| then dl[p + dlen] else past;
      r, rec := HandleDescriptor(dtag, dl[p..p + dlen], next, rec, r, text, fx);
      if r < 0 {
        break;
      }
      dllen := dllen - dlen;
      p := p + dlen;
    }
  }

  method ProcessEvent(e: seq<Byte>, text: TextRejects, refused: set<seq<Byte>>, fx: Fixes, u: Undefined)
    returns (r: int, ev: Option<EitEvent>)
    ensures Processed(r, ev) == ProcessEventSpec(e, text, refused, fx, u)
  {
    if |e| < 12 {
      return -1, None;
    }
    var dllen := LoopLength(e);
    if |e| - 12 < dllen {
      return -1, None;
    }
    var past := if 12 + dllen < |e| then e[12 + dllen] else u.past;
    var rec := WalkDescriptors(e[12..12 + dllen], u.r0, text, fx, past);
    ev := Some(rec);
    r := if e !in refused then 12 + LoopLength(e) else -1;
  }

  /** The records handed on and the offset where _eit_process_data stops. */
  datatype DataResult = DataResult(events: seq<EitEvent>, stop: nat)

  /**
   * _eit_process_data's loop from offset off, with the records already
   * handed on in acc: events front to back, each consuming what
   * _eit_process_event returned, until the data is used up or an event
   * reports -1.  The whole loop is ProcessDataFrom(data, 0, []).
   */
  function ProcessDataFrom(data: seq<Byte>, off: nat, acc: seq<EitEvent>, text: TextRejects, refused: set<seq<Byte>>,
                           fx: Fixes, u: Undefined): (res: DataResult)
    requires off <= |data|
    ensures off <= res.stop <= |data|
    decreases |data| - off
  {
    if off == |data| then DataResult(acc, off)
    else
      var p := ProcessEventSpec(data[off..], text, refused, fx, u);
      var handed := if p.ev.Some? then [p.ev.value] else [];
      if p.r < 0 then DataResult(acc + handed, off)
      else ProcessDataFrom(data, off + p.r, acc + handed, text, refused, fx, u)
  }

  /** One pass of _eit_process_data's loop: the event at off, and where the loop goes on from. */
  method NextEvent(data: seq<Byte>, off: nat, ghost acc: seq<EitEvent>, text: TextRejects, refused: set<seq<Byte>>,
                   fx: Fixes, u: Undefined)
    returns (r: int, handed: seq<EitEvent>)
    requires off < |data|
    ensures r == -1 || 12 <= r <= |data| - off
    ensures |handed| <= 1
    ensures r < 0 ==> ProcessDataFrom(data, off, acc, text, refused, fx, u) == DataResult(acc + handed, off)
    ensures r >= 0 ==> ProcessDataFrom(data, off, acc, text, refused, fx, u) == ProcessDataFrom(data, off + r, acc + handed, text, refused, fx, u)
  {
    var ev;
    r, ev := ProcessEvent(data[off..], text, refused, fx, u);
    handed := if ev.Some? then [ev.value] else [];
  }

  method ProcessData(data: seq<Byte>, text: TextRejects, refused: set<seq<Byte>>, fx: Fixes, u: Undefined)
    returns (events: seq<EitEvent>, stop: nat)
    ensures DataResult(events, stop) == ProcessDataFrom(data, 0, [], text, refused, fx, u)
  {
    hide ProcessEventSpec, LoopLength, Walk;
    var len := |data|;
    var off := 0;
    events := [];
    while len != 0
      invariant 0 <= off <= |data| && off + len == |data|
      invariant ProcessDataFrom(data, off, events, text, refused, fx, u) == ProcessDataFrom(data, 0, [], text, refused, fx, u)
      decreases len
    {
      var r, handed := NextEvent(data, off, events, text, refused, fx, u);
      events := events + handed;
      if r < 0 {
        return events, off;
      }
      len := len - r;
      off := off + r;
    }
    stop := off;
  }

  /** The records already handed on stay at the front of the result, whatever the loop does after. */
  lemma {:induction false} HandedKept(data: seq<Byte>, off: nat, acc: seq<EitEvent>, text: TextRejects, refused: set<seq<Byte>>,
                                      fx: Fixes, u: Undefined)
    requires off <= |data|
    ensures var res := ProcessDataFrom(data, off, acc, text, refused, fx, u);
      var alone := ProcessDataFrom(data, off, [], text, refused, fx, u);
      res == DataResult(acc + alone.events, alone.stop)
    decreases |data| - off
  {
    hide ProcessEventSpec, LoopLength;
    if off < |data| {
      var p := ProcessEventSpec(data[off..], text, refused, fx, u);
      var handed := if p.ev.Some? then [p.ev.value] else [];
      if p.r >= 0 {
        HandedKept(data, off + p.r, acc + handed, text, refused, fx, u);
        HandedKept(data, off + p.r, handed, text, refused, fx, u);
        var tail := ProcessDataFrom(data, off + p.r, [], text, refused, fx, u).events;
        assert (acc + handed) + tail == acc + (handed + tail);
      }
      assert [] + handed == handed;
    } else {
      assert acc + [] == acc;
    }
  }

  /** Every event the loop consumes is at least 12 bytes, so it hands on at most one record per 12 bytes, plus the last. */
  lemma {:induction false} ProcessDataSteps(data: seq<Byte>, off: nat, acc: seq<EitEvent>, text: TextRejects, refused: set<seq<Byte>>,
                                            fx: Fixes, u: Undefined)
    requires off <= |data|
    ensures var res := ProcessDataFrom(data, off, acc, text, refused, fx, u);
      |res.events| <= |acc| + (|data| - off) / 12 + 1 && (res.stop == off || res.stop >= off + 12)
    decreases |data| - off
  {
    hide ProcessEventSpec;
    if off < |data| {
      var p := ProcessEventSpec(data[off..], text, refused, fx, u);
      var handed := if p.ev.Some? then [p.ev.value] else [];
      if p.r >= 0 {
        ProcessDataSteps(data, off + p.r, acc + handed, text, refused, fx, u);
        StepDiv(|data| - off, p.r);
      }
    }
  }

  lemma StepDiv(n: int, r: int)
    requires 12 <= r <= n
    ensures (n - r) / 12 + 1 <= n / 12
  {
    assert (n - r) / 12 + 1 == (n - r + 12) / 12;
  }

  // ---------------------------------------------------------------------
  // The table callback: header guard and segment mask

  /** The fields of the EIT section header after table_id and section_length. */
  datatype EitHeader = EitHeader(sid: bv16, tsid: bv16, onid: bv16, seg: Byte, extraid: bv32)

  /** A big-endian 16-bit field. */
  function Be16(hi: Byte, lo: Byte): bv16
  {
    (hi as bv16 << 8) | lo as bv16
  }

  /**
   * The first checks of _eit_callback: -1 (None) unless the grabber is
   * running, the module has its private data, the table id is an EIT
   * (0x4e to 0x6f) and there are 11 header bytes; then sid, tsid, onid,
   * segment_last_section_number and the table key tsid << 16 | sid.
   */
  function CallbackHeader(otaRunning: bool, hasPriv: bool, tableid: int, s: seq<Byte>): (h: Option<EitHeader>)
    ensures h.None? <==> !otaRunning || !hasPriv || tableid < 0x4e || tableid > 0x6f || |s| < 11
    ensures h.Some? ==> h.value.seg == s[9]
  {
    if !otaRunning || !hasPriv then None
    else if tableid < 0x4e || tableid > 0x6f || |s| < 11 then None
    else
      var sid := Be16(s[0], s[1]);
      var tsid := Be16(s[5], s[6]);
      var onid := Be16(s[7], s[8]);
      Some(EitHeader(sid, tsid, onid, s[9], (tsid as bv32 << 16) | sid as bv32))
  }

  /** The 11 header bytes for given ids; version and section numbers are filler. */
  function EncodeHeader(sid: bv16, tsid: bv16, onid: bv16, seg: Byte): (s: seq<Byte>)
    ensures |s| == 11
  {
    [(sid >> 8) as Byte, (sid & 0xff) as Byte, 0, 0, 0, (tsid >> 8) as Byte, (tsid & 0xff) as Byte,
     (onid >> 8) as Byte, (onid & 0xff) as Byte, seg, 0]
  }

  lemma Be16Split(x: bv16)
    ensures Be16((x >> 8) as Byte, (x & 0xff) as Byte) == x
  {
  }

  lemma ExtraIdSplit(tsid: bv16, sid: bv16)
    ensures var k := (tsid as bv32 << 16) | sid as bv32;
      (k >> 16) as bv16 == tsid && (k & 0xffff) as bv16 == sid
  {
  }

  /** The ids come back out of their big-endian bytes, and the table key splits back into tsid and sid. */
  lemma HeaderRoundTrip(sid: bv16, tsid: bv16, onid: bv16, seg: Byte, tableid: int)
    requires 0x4e <= tableid <= 0x6f
    ensures var h := CallbackHeader(true, true, tableid, EncodeHeader(sid, tsid, onid, seg));
      && h == Some(EitHeader(sid, tsid, onid, seg, (tsid as bv32 << 16) | sid as bv32))
      && (h.value.extraid >> 16) as bv16 == tsid && (h.value.extraid & 0xffff) as bv16 == sid
  {
    Be16Split(sid);
    Be16Split(tsid);
    Be16Split(onid);
    ExtraIdSplit(tsid, sid);
  }

  /** The bits of sections[] that stand for sections seg + 1 up to the end of seg's segment (seg | 7). */
  function SegmentMask(seg: Byte): bv32
  {
    var sa := seg & 0xf8;
    var sb := 7 - (seg & 0x07);
    (!((0xff as bv32) << sb) & 0xff) << (24 - sa % 32)
  }

  /** The word of sections[] that holds section n. */
  function Word(n: Byte): (w: int)
    ensures 0 <= w < 8
  {
    (n >> 5) as int
  }

  /** Section n's bit within its word: bit 31 - n % 32, most significant first. */
  function SectionBit(n: Byte): (b: bv32)
    ensures b != 0 && b & (b - 1) == 0
  {
    (1 as bv32) << (31 - (n & 0x1f))
  }

  /**
   * The segment mask of _eit_callback: in the word of seg's segment, clear
   * the bits of the sections that follow seg in its segment; the other
   * words are left alone.
   */
  method ClearSegmentTail(sections: array<bv32>, seg: Byte)
    requires sections.Length == 8
    modifies sections
    ensures sections[..] == old(sections[..])[Word(seg) := old(sections[Word(seg)]) & !SegmentMask(seg)]
  {
    var sa := seg & 0xf8;
    var w := (sa / 32) as int;
    assert w == Word(seg) by {
      assert sa / 32 == seg >> 5;
    }
    var mask := SegmentMask(seg);
    sections[w] := sections[w] & !mask;
  }

  /** Within seg's word the mask holds section n's bit exactly when n follows seg in its segment. */
  lemma SegmentMaskBit(seg: Byte, n: Byte)
    requires n >> 5 == seg >> 5
    ensures SegmentMask(seg) & SectionBit(n) != 0 <==> seg < n <= seg | 0x07
  {
  }

  /** Clearing a mask keeps a single bit exactly when the mask does not hold it. */
  lemma ClearBit(x: bv32, m: bv32, n: Byte)
    ensures (x & !m) & SectionBit(n) != 0 <==> x & SectionBit(n) != 0 && m & SectionBit(n) == 0
  {
  }

  /**
   * For every section n of the word ClearSegmentTail changes, the new word
   * records n exactly when the old one did and n does not follow seg in
   * its segment: the sections seg + 1 to seg | 7 are forgotten, seg itself
   * and the rest are kept.
   */
  lemma SegmentTailCleared(x: bv32, seg: Byte, n: Byte)
    requires Word(n) == Word(seg)
    ensures (x & !SegmentMask(seg)) & SectionBit(n) != 0 <==> x & SectionBit(n) != 0 && !(seg < n <= seg | 0x07)
  {
    assert n >> 5 == seg >> 5;
    ClearBit(x, SegmentMask(seg), n);
    SegmentMaskBit(seg, n);
  }

  // ---------------------------------------------------------------------
  // NIT / SDT id filter

  /** eit_nit_array_check: 0 (accept) when the list is empty or holds val among its first count entries, else 1. */
  method NitArrayCheck(val: int, ids: seq<int>, count: int) returns (r: int)
    requires count <= |ids|
    ensures r == 0 || r == 1
    ensures r == 0 <==> count <= 0 || val in ids[..count]
  {
    if count <= 0 {
      return 0;
    }
    var i := 0;
    while i < count
      invariant 0 <= i <= count
      invariant val !in ids[..i]
    {
      if ids[i] == val {
        assert ids[..count][i] == val;
        return 0;
      }
      assert ids[..i + 1] == ids[..i] + [ids[i]];
      i := i + 1;
    }
    r := 1;
  }
}
