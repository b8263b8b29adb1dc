/**
 The path grammar and level rules of the asset tree. A contextual path is slash-separated;
 a Measurement hangs off its last segment behind a dot.
 */
module AssetPaths {
  import opened Text

  datatype Kind = Site | Area | Unit | Device | Measurement {
    function Level(): nat {
      match this
      case Site => 1
      case Area => 2
      case Unit => 3
      case Device => 4
      case Measurement => 5
    }
  }

  datatype PathError = Required | TooLong | TooManySegments | BadSegment | DotMissing | DotForbidden | WrongDepth

  const MAX_LENGTH := 512
  const MAX_SEGMENTS := 6

  predicate SegmentChar(c: char) {
    'A' <= c <= 'Z' || 'a' <= c <= 'z' || '0' <= c <= '9' || c == '_' || c == '-'
  }

  predicate Word(s: string) {
    s != "" && forall c | c in s :: SegmentChar(c)
  }

  /** A .NET `$` anchor also matches in front of one final line feed, so one is tolerated. */
  function Chomp(s: string): string {
    if s != "" && s[|s| - 1] == '\n' then s[..|s| - 1] else s
  }

  predicate InnerSegment(s: string) {
    Word(Chomp(s))
  }

  predicate FinalSegment(s: string) {
    forall part | part in Split(Chomp(s), '.') :: Word(part)
  }

  function Segments(path: string): seq<string> {
    Split(path, '/')
  }

  function LastSegment(path: string): string {
    path[LastIndexOf(path, '/') + 1..]
  }

  /** None when the path is acceptable for the kind, else the reason. */
  function GrammarError(path: string, kind: Kind): Option<PathError> {
    var segments := Segments(path);
    var n := |segments|;
    if forall c | c in path :: IsWhiteSpace(c) then Some(Required)
    else if |path| > MAX_LENGTH then Some(TooLong)
    else if n > MAX_SEGMENTS then Some(TooManySegments)
    else if !((forall i | 0 <= i < n - 1 :: InnerSegment(segments[i])) && FinalSegment(LastSegment(path))) then Some(BadSegment)
    else if kind.Measurement? && '.' !in LastSegment(path) then Some(DotMissing)
    else if !kind.Measurement? && '.' in LastSegment(path) then Some(DotForbidden)
    else if DepthAllowed(kind, n) then None
    else Some(WrongDepth)
  }

  predicate DepthAllowed(kind: Kind, n: nat) {
    match kind
    case Site => n == 1
    case Area => n == 2
    case Unit => 2 <= n <= 3
    case Device => 3 <= n <= 5
    case Measurement => 2 <= n <= 6
  }

  /** Strip the measurement, else the last segment; None for a root. */
  function ParentPathOf(path: string, kind: Kind): Option<string> {
    var lastSlash := LastIndexOf(path, '/');
    var dot := LastIndexOf(path, '.');
    if kind.Measurement? && dot > lastSlash then (if dot > 0 then Some(path[..dot]) else None)
    else if lastSlash > 0 then Some(path[..lastSlash]) else None
  }

  /** A natural parent is a proper prefix, cut at a slash or, for a Measurement only, at a dot. */
  lemma ParentIsPrefix(path: string, kind: Kind)
    requires ParentPathOf(path, kind).Some?
    ensures var up := ParentPathOf(path, kind).value;
            && up < path
            && up != ""
            && (path[|up|] == '/' || (kind.Measurement? && path[|up|] == '.' && '/' !in path[|up|..]))
  {
    var up := ParentPathOf(path, kind).value;
    assert forall j :: |up| <= j < |path| ==> path[j] == path[|up|..][j - |up|];
  }

  /** A slash-free last segment is what stands behind the last slash. */
  lemma Compose(head: string, last: string)
    requires '/' !in last
    ensures var path := head + ['/'] + last;
            && LastIndexOf(path, '/') == |head|
            && LastSegment(path) == last
            && Segments(path) == Segments(head) + [last]
  {
    LastIndexSnoc(head, '/', last);
    SplitSnoc(head, '/', last);
    hide LastIndexOf, Split;
    assert (head + ['/'] + last)[|head| + 1..] == last;
  }

  /** The natural parent of a Measurement is what stands before its last dot. */
  lemma ComposeMeasurement(head: string, device: string, name: string)
    requires '/' !in device && '/' !in name && '.' !in name
    ensures ParentPathOf(head + ['/'] + (device + ['.'] + name), Measurement) == Some(head + ['/'] + device)
  {
    var up, last := head + ['/'] + device, device + ['.'] + name;
    var path := head + ['/'] + last;
    assert path == up + ['.'] + name;
    LastIndexSnoc(up, '.', name);
    LastIndexSnoc(head, '/', last);
    hide LastIndexOf;
    assert path[..|up|] == up;
  }

  lemma LastOfSegments(path: string)
    ensures Segments(path)[|Segments(path)| - 1] == LastSegment(path)
    ensures ('/' in path) <==> |Segments(path)| > 1
  {
  }

  /** A path of segments without dots is accepted for exactly the kinds its depth allows. */
  lemma PlainPath(path: string, kind: Kind)
    requires |path| <= MAX_LENGTH && !kind.Measurement?
    requires forall segment | segment in Segments(path) :: InnerSegment(segment)
    ensures var n := |Segments(path)|;
            GrammarError(path, kind).None? <==>
            match kind
            case Site => n == 1
            case Area => n == 2
            case Unit => n == 2 || n == 3
            case Device => n == 3 || n == 4 || n == 5
            case Measurement => false
  {
    GrammarIff(path, kind);
    LastOfSegments(path);
    var last := LastSegment(path);
    assert last in Segments(path);
    InnerIsFinal(last);
    forall segment | segment in Segments(path) ensures PlainSegment(segment) {
      InnerIsPlain(segment);
    }
    hide GrammarError, Split, InnerSegment, Segments, LastSegment;
    FinalIsDotted(last);
  }

  /** Letters, digits, underscores and hyphens, and at least one of them. */
  ghost predicate PlainText(s: string) {
    s != "" && forall c | c in s :: 'A' <= c <= 'Z' || 'a' <= c <= 'z' || '0' <= c <= '9' || c == '_' || c == '-'
  }

  /** One line feed may stand behind a segment. */
  ghost predicate PlainSegment(s: string) {
    PlainText(s) || (s != "" && s[|s| - 1] == '\n' && PlainText(s[..|s| - 1]))
  }

  ghost predicate DottedSegment(s: string) {
    DottedText(s) || (s != "" && s[|s| - 1] == '\n' && DottedText(s[..|s| - 1]))
  }

  ghost predicate DottedText(s: string) {
    forall part | part in Split(s, '.') :: PlainText(part)
  }

  lemma InnerIsPlain(s: string)
    ensures InnerSegment(s) <==> PlainSegment(s)
  {
    if s != "" && s[|s| - 1] == '\n' {
      assert s[|s| - 1] in s;
    }
  }

  lemma FinalIsDotted(s: string)
    ensures FinalSegment(s) <==> DottedSegment(s)
  {
    if s != "" && s[|s| - 1] == '\n' {
      LineFeedIsNotDotted(s);
    }
    WordsArePlain(Split(Chomp(s), '.'));
    hide Split, Word, PlainText;
  }

  lemma WordsArePlain(parts: seq<string>)
    ensures (forall part | part in parts :: Word(part)) <==> (forall part | part in parts :: PlainText(part))
  {
    forall part | part in parts ensures Word(part) <==> PlainText(part) {
    }
    hide Word, PlainText;
  }

  lemma LineFeedIsNotDotted(s: string)
    requires s != "" && s[|s| - 1] == '\n'
    ensures !DottedText(s)
  {
    var part := LastPart(s, '.');
    hide Split;
    assert !PlainText(part);
  }

  /**
   Exactly the acceptable paths: at most 512 characters, plain segments, the last one dotted for a
   Measurement and only for one, and as many segments as the kind may have.
   */
  lemma GrammarIff(path: string, kind: Kind)
    ensures var segments := Split(path, '/');
            var n := |segments|;
            GrammarError(path, kind).None? <==>
            && |path| <= 512
            && (forall i :: 0 <= i < n - 1 ==> PlainSegment(segments[i]))
            && DottedSegment(segments[n - 1])
            && match kind
               case Site => n == 1 && '.' !in segments[n - 1]
               case Area => n == 2 && '.' !in segments[n - 1]
               case Unit => 2 <= n <= 3 && '.' !in segments[n - 1]
               case Device => 3 <= n <= 5 && '.' !in segments[n - 1]
               case Measurement => 2 <= n <= 6 && '.' in segments[n - 1]
  {
    LastOfSegments(path);
    GrammarParts(path, kind);
    var segments := Segments(path);
    forall i | 0 <= i < |segments| ensures InnerSegment(segments[i]) <==> PlainSegment(segments[i]) {
      InnerIsPlain(segments[i]);
    }
    FinalIsDotted(LastSegment(path));
    hide GrammarError, Split, LastIndexOf, FinalSegment, InnerSegment, PlainSegment, DottedSegment, LastSegment;
  }

  /** The reason given names a defect the path has. */
  lemma ReasonIsReal(path: string, kind: Kind)
    requires GrammarError(path, kind).Some?
    ensures var segments := Split(path, '/');
            var n, last := |segments|, segments[|segments| - 1];
            match GrammarError(path, kind).value
            case Required => forall c :: c in path ==> IsWhiteSpace(c)
            case TooLong => |path| > 512
            case TooManySegments => n > 6
            case BadSegment => !DottedSegment(last) || exists i :: 0 <= i < n - 1 && !PlainSegment(segments[i])
            case DotMissing => kind == Measurement && '.' !in last
            case DotForbidden => kind != Measurement && '.' in last
            case WrongDepth =>
              match kind
              case Site => n != 1
              case Area => n != 2
              case Unit => n < 2 || n > 3
              case Device => n < 3 || n > 5
              case Measurement => n < 2
  {
    LastOfSegments(path);
    ReasonParts(path, kind);
    var segments := Segments(path);
    forall i | 0 <= i < |segments| ensures InnerSegment(segments[i]) <==> PlainSegment(segments[i]) {
      InnerIsPlain(segments[i]);
    }
    FinalIsDotted(LastSegment(path));
    hide GrammarError, Split, LastIndexOf, FinalSegment, InnerSegment, PlainSegment, DottedSegment, LastSegment, IsWhiteSpace;
  }

  lemma ReasonParts(path: string, kind: Kind)
    requires GrammarError(path, kind).Some?
    ensures var segments, last := Segments(path), LastSegment(path);
            match GrammarError(path, kind).value
            case Required => forall c :: c in path ==> IsWhiteSpace(c)
            case TooLong => |path| > MAX_LENGTH
            case TooManySegments => |segments| > MAX_SEGMENTS
            case BadSegment => !FinalSegment(last) || exists i :: 0 <= i < |segments| - 1 && !InnerSegment(segments[i])
            case DotMissing => kind == Measurement && '.' !in last
            case DotForbidden => kind != Measurement && '.' in last
            case WrongDepth => !DepthAllowed(kind, |segments|) && |segments| <= MAX_SEGMENTS
  {
    hide Split, LastIndexOf, FinalSegment, InnerSegment, Segments, LastSegment, IsWhiteSpace, DepthAllowed;
  }

  lemma GrammarParts(path: string, kind: Kind)
    ensures GrammarError(path, kind).None? <==>
            && |path| <= MAX_LENGTH && DepthAllowed(kind, |Segments(path)|)
            && (forall i :: 0 <= i < |Segments(path)| - 1 ==> InnerSegment(Segments(path)[i]))
            && FinalSegment(LastSegment(path)) && (kind.Measurement? <==> '.' in LastSegment(path))
  {
    hide IsWhiteSpace;
    if FinalSegment(LastSegment(path)) {
      FinalHasText(path);
    }
    hide Split, LastIndexOf, FinalSegment, InnerSegment, Segments, LastSegment;
    if GrammarError(path, kind).None? {
      AcceptedParts(path, kind);
    }
  }

  /** A good last segment has a character that is no white space. */
  lemma FinalHasText(path: string)
    requires FinalSegment(LastSegment(path))
    ensures exists c :: c in path && !IsWhiteSpace(c)
  {
    var last := LastSegment(path);
    var core := Chomp(last);
    var c := '.';
    if '.' !in core {
      CleanSplit(core, '.');
      hide IsWhiteSpace;
      assert Split(core, '.')[0] == core;
      assert Word(core);
      c := core[0];
      assert SegmentChar(c);
    }
    hide Split, LastIndexOf;
    assert c in core;
    assert c == '.' || SegmentChar(c);
    assert c in last && c in path;
  }

  /** The four ways to a parent: cut at the last slash, or for a dotted Measurement at its last dot. */
  lemma ParentPathIs(head: string, last: string, kind: Kind)
    requires '/' !in last
    ensures !kind.Measurement? || '.' !in last ==>
              && ParentPathOf(head + ['/'] + last, kind) == (if head == "" then None else Some(head))
              && ParentPathOf(last, kind) == None
    ensures kind.Measurement? ==> forall device, name: string :: last == device + ['.'] + name && '.' !in name ==>
              && ParentPathOf(head + ['/'] + last, kind) == Some(head + ['/'] + device)
              && ParentPathOf(last, kind) == (if device == "" then None else Some(device))
  {
    var path := head + ['/'] + last;
    LastIndexSnoc(head, '/', last);
    assert path[..|head|] == head;
    if kind.Measurement? && '.' !in last {
      var dot := LastIndexOf(path, '.');
      assert forall k :: |head| < k < |path| ==> path[k] == last[k - |head| - 1];
      assert dot <= |head|;
    }
    if kind.Measurement? {
      forall device, name: string | last == device + ['.'] + name && '.' !in name
        ensures ParentPathOf(path, kind) == Some(head + ['/'] + device)
        ensures ParentPathOf(last, kind) == (if device == "" then None else Some(device))
      {
        ComposeMeasurement(head, device, name);
        LastIndexSnoc(device, '.', name);
        assert last[..|device|] == device;
      }
    }
  }

  /** What the grammar promises about an accepted path. */
  lemma AcceptedParts(path: string, kind: Kind)
    requires GrammarError(path, kind).None?
    ensures |path| <= MAX_LENGTH && DepthAllowed(kind, |Segments(path)|)
    ensures forall i :: 0 <= i < |Segments(path)| - 1 ==> InnerSegment(Segments(path)[i])
    ensures FinalSegment(LastSegment(path)) && (kind.Measurement? <==> '.' in LastSegment(path))
  {
  }

  lemma InnerIsFinal(s: string)
    requires InnerSegment(s)
    ensures FinalSegment(s) && '.' !in s && s != ""
  {
    assert forall j :: 0 <= j < |Chomp(s)| ==> s[j] in Chomp(s);
  }

  /** The first part of a dotted last segment is a word exactly when there is one dot. */
  lemma OneDot(device: string, name: string)
    requires '.' !in name && FinalSegment(device + ['.'] + name)
    ensures '.' !in device ==> InnerSegment(device)
    ensures '.' in device <==> |Split(device + ['.'] + name, '.')| != 2
  {
    var s := device + ['.'] + name;
    SplitSnoc(device, '.', name);
    assert Chomp(s) == device + ['.'] + Chomp(name);
    SplitSnoc(device, '.', Chomp(name));
    hide LastIndexOf;
    if '.' !in device {
      assert Split(device, '.')[0] == device;
      assert Word(device);
      assert device[|device| - 1] in device;
    }
  }

  ghost predicate Parentable(path: string, kind: Kind) {
    ParentPathOf(path, kind).Some? &&
    exists up: Kind :: up.Level() < kind.Level() && GrammarError(ParentPathOf(path, kind).value, up).None?
  }

  /**
   Which well-formed assets can have a parent at all. A Device of five segments, a Measurement
   of six, and a Measurement below a device name that itself contains a dot never can: every
   kind the grammar admits for their parent path fails to be of a higher level.
   */
  lemma ParentableIff(path: string, kind: Kind)
    requires GrammarError(path, kind).None?
    ensures Parentable(path, kind) <==>
            match kind
            case Site => false
            case Area => true
            case Unit => true
            case Device => |Segments(path)| <= 4
            case Measurement => |Segments(path)| <= 5 && |Split(LastSegment(path), '.')| == 2
  {
    AcceptedParts(path, kind);
    LastOfSegments(path);
    if kind.Site? {
      assert ParentPathOf(path, kind).None?;
    } else {
      hide GrammarError, LastIndexOf, Split, Segments, LastSegment, Parentable;
      var head, last := CutLast(path, '/');
      Compose(head, last);
      if kind.Measurement? {
        var device, name := CutLast(last, '.');
        MeasurementParent(head, device, name);
      } else {
        SlashParent(head, last, kind);
      }
    }
  }

  /** A path whose natural parent is plain has one exactly when a higher level has that depth. */
  lemma ParentByDepth(path: string, kind: Kind, up: string)
    requires ParentPathOf(path, kind) == Some(up) && |up| <= MAX_LENGTH
    requires forall segment | segment in Segments(up) :: InnerSegment(segment)
    ensures Parentable(path, kind) <==>
            exists k: Kind :: k.Level() < kind.Level() && DepthAllowed(k, |Segments(up)|)
  {
    hide ParentPathOf, Segments, InnerSegment, GrammarError;
    forall k: Kind | !k.Measurement? ensures GrammarError(up, k).None? <==> DepthAllowed(k, |Segments(up)|) {
      PlainPath(up, k);
    }
  }

  /** A parent path that still ends in a dotted segment belongs to no level above. */
  lemma DottedParent(path: string, up: string)
    requires ParentPathOf(path, Measurement) == Some(up) && '.' in LastSegment(up)
    ensures !Parentable(path, Measurement)
  {
    forall k: Kind | !k.Measurement? ensures GrammarError(up, k).Some? {
      if GrammarError(up, k).None? {
        AcceptedParts(up, k);
      }
    }
  }

  lemma SlashParent(head: string, last: string, kind: Kind)
    requires '/' !in last && !kind.Measurement? && !kind.Site?
    requires GrammarError(head + ['/'] + last, kind).None?
    ensures Parentable(head + ['/'] + last, kind) <==> (kind.Device? ==> |Segments(head)| <= 3)
  {
    var path := head + ['/'] + last;
    AcceptedParts(path, kind);
    hide GrammarError, InnerSegment, FinalSegment, Segments;
    Compose(head, last);
    assert path[..|head|] == head && head != "" by {
      EmptySegment(head, path);
    }
    assert forall i :: 0 <= i < |Segments(head)| ==> Segments(head)[i] == Segments(path)[i];
    ParentByDepth(path, kind, head);
    var n := |Segments(head)|;
    assert DepthAllowed(if n == 1 then Site else if n == 2 then Area else Unit, n) || n > 3;
  }

  lemma EmptySegment(head: string, path: string)
    requires |Segments(path)| > |Segments(head)| && Segments(head) <= Segments(path)
    requires forall i :: 0 <= i < |Segments(path)| - 1 ==> InnerSegment(Segments(path)[i])
    ensures head != ""
  {
    assert Segments("") == [""];
    assert InnerSegment(Segments(path)[0]);
  }

  lemma MeasurementParent(head: string, device: string, name: string)
    requires '/' !in device && '/' !in name && '.' !in name
    requires GrammarError(head + ['/'] + (device + ['.'] + name), Measurement).None?
    ensures Parentable(head + ['/'] + (device + ['.'] + name), Measurement) <==>
            |Segments(head)| <= 4 && |Split(device + ['.'] + name, '.')| == 2
  {
    var last, up := device + ['.'] + name, head + ['/'] + device;
    var path := head + ['/'] + last;
    AcceptedParts(path, Measurement);
    hide GrammarError, ParentPathOf, LastSegment, InnerSegment, FinalSegment, Segments, Split, LastIndexOf, Parentable;
    ComposeMeasurement(head, device, name);
    Compose(head, last);
    Compose(head, device);
    OneDot(device, name);
    if '.' in device {
      DottedParent(path, up);
    } else {
      assert forall i :: 0 <= i < |Segments(head)| ==> Segments(head)[i] == Segments(path)[i];
      PlainMeasurementParent(path, Segments(head), up, device);
    }
  }

  lemma PlainMeasurementParent(path: string, front: seq<string>, up: string, device: string)
    requires ParentPathOf(path, Measurement) == Some(up) && |up| <= MAX_LENGTH
    requires Segments(up) == front + [device] && front != []
    requires InnerSegment(device) && forall i :: 0 <= i < |front| ==> InnerSegment(front[i])
    ensures Parentable(path, Measurement) <==> |front| <= 4
  {
    hide GrammarError, ParentPathOf, InnerSegment, Segments, Parentable;
    ParentByDepth(path, Measurement, up);
    var n := |front|;
    assert DepthAllowed(if n == 1 then Area else if n == 2 then Unit else Device, n + 1) || n > 4;
  }
}
