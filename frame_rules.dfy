/**
 * The per-frame violation rules of the proctoring detector: after the
 * object detector has named what it sees in one frame, count the people,
 * collect the device-like objects and turn both into at most two events.
 */
module FrameRules {
  import opened Text
  import opened Ordering

  const PERSON_LABEL: string := "person"
  /** More people than this in one frame is a violation. */
  const MULTI_THRESHOLD: nat := 1
  /** A detected class whose lower-cased name contains one of these is a device. */
  const DEVICE_KEYWORDS: set<string> :=
    {"cell phone", "mobile phone", "phone", "laptop", "book", "tablet", "keyboard", "mouse"}

  const LOW: string := "low"
  const MEDIUM: string := "medium"
  const HIGH: string := "high"

  const NO_PERSON: string := "No person detected"
  const MULTIPLE_FACES: string := "Multiple faces detected"
  const PHONE_DETECTED: string := "Phone detected"
  const DEVICE_DETECTED: string := "Device detected"

  /** One event dictionary: its "type", "severity" and "details" entries. */
  datatype Event = Event(kind: string, severity: string, details: string)

  /** What the evaluation of one frame returns (bounding boxes left out). */
  datatype FrameReport = FrameReport(events: seq<Event>, personCount: nat, devices: set<string>)

  predicate IsDevice(name: string)
  {
    exists k | k in DEVICE_KEYWORDS :: Contains(Lower(name), k)
  }

  predicate MentionsPhone(name: string)
  {
    Contains(Lower(name), "phone")
  }

  /** The distinct detected names that count as devices. */
  function DeviceNames(names: seq<string>): set<string>
  {
    set n | n in names && IsDevice(n)
  }

  predicate IsPersonEvent(e: Event)
  {
    e.kind == NO_PERSON || e.kind == MULTIPLE_FACES
  }

  predicate IsDeviceEvent(e: Event)
  {
    e.kind == PHONE_DETECTED || e.kind == DEVICE_DETECTED
  }

  /** The person rule, on the number of "person" detections. */
  function PersonEvents(count: nat): seq<Event>
  {
    if count == 0 then [Event(NO_PERSON, MEDIUM, "Student not visible")]
    else if count > MULTI_THRESHOLD then [Event(MULTIPLE_FACES, HIGH, Decimal(count) + " persons")]
    else []
  }

  /** The device rule, on the set of device names. */
  function DeviceEvents(devices: set<string>): seq<Event>
  {
    if devices == {} then []
    else
      var kind := if exists d | d in devices :: MentionsPhone(d) then PHONE_DETECTED else DEVICE_DETECTED;
      [Event(kind, HIGH, Join(SortedNames(devices), ", "))]
  }

  /** The events of a frame in which the detector named `names`. */
  function FrameEvents(names: seq<string>): seq<Event>
  {
    PersonEvents(multiset(names)[PERSON_LABEL]) + DeviceEvents(DeviceNames(names))
  }

  /** `any(evt.get("severity") == "high" for evt in events)` */
  predicate HasHigh(events: seq<Event>)
  {
    exists i :: 0 <= i < |events| && events[i].severity == HIGH
  }

  /** The pass over the detections of one frame: count the people, collect the device names. */
  method Tally(names: seq<string>) returns (personCount: nat, devices: set<string>)
    ensures personCount == multiset(names)[PERSON_LABEL]
    ensures devices == DeviceNames(names)
  {
    personCount := 0;
    devices := {};
    for i := 0 to |names|
      invariant personCount == multiset(names[..i])[PERSON_LABEL]
      invariant devices == DeviceNames(names[..i])
    {
      var name := names[i];
      assert names[..i + 1] == names[..i] + [name];
      DeviceNamesSnoc(names[..i], name);
      if name == PERSON_LABEL {
        personCount := personCount + 1;
      }
      if IsDevice(name) {
        devices := devices + {name};
      }
    }
    assert names[..|names|] == names;
  }

  /**
   * The post-inference part of evaluating one frame: the pass over the
   * detected class names, then the person rule and the device rule.
   */
  method EvaluateFrame(names: seq<string>) returns (r: FrameReport)
    ensures r.personCount == multiset(names)[PERSON_LABEL]
    ensures r.devices == DeviceNames(names)
    ensures r.events == FrameEvents(names)
  {
    var personCount, devices := Tally(names);
    var events: seq<Event> := [];
    if personCount == 0 {
      events := events + [Event(NO_PERSON, MEDIUM, "Student not visible")];
    } else if personCount > MULTI_THRESHOLD {
      events := events + [Event(MULTIPLE_FACES, HIGH, Decimal(personCount) + " persons")];
    }
    assert events == PersonEvents(personCount);
    if devices != {} {
      var deviceList := Join(SortedNames(devices), ", ");
      var kind := if exists d | d in devices :: MentionsPhone(d) then PHONE_DETECTED else DEVICE_DETECTED;
      events := events + [Event(kind, HIGH, deviceList)];
    }
    assert events == PersonEvents(personCount) + DeviceEvents(devices);
    r := FrameReport(events, personCount, devices);
  }

  lemma DeviceNamesSnoc(names: seq<string>, name: string)
    ensures DeviceNames(names + [name]) == DeviceNames(names) + (if IsDevice(name) then {name} else {})
  {
  }

  /** No person gives one medium event, several give one high event, exactly one gives none. */
  lemma PersonRule(names: seq<string>)
    ensures var c, evs := multiset(names)[PERSON_LABEL], FrameEvents(names);
      && (c == 0 ==> evs[0] == Event(NO_PERSON, MEDIUM, "Student not visible"))
      && (c > MULTI_THRESHOLD ==> evs[0] == Event(MULTIPLE_FACES, HIGH, Decimal(c) + " persons"))
      && ((exists i :: 0 <= i < |evs| && evs[i].kind == NO_PERSON) <==> c == 0)
      && ((exists i :: 0 <= i < |evs| && evs[i].kind == MULTIPLE_FACES) <==> c > MULTI_THRESHOLD)
  {
  }

  /** A device event is emitted exactly when some detected name is a device, always with high severity. */
  lemma DeviceRule(names: seq<string>)
    ensures var ds, evs := DeviceNames(names), FrameEvents(names);
      && ((exists i :: 0 <= i < |evs| && IsDeviceEvent(evs[i])) <==> ds != {})
      && (ds != {} ==>
            && IsDeviceEvent(evs[|evs| - 1])
            && evs[|evs| - 1].severity == HIGH
            && evs[|evs| - 1].details == Join(SortedNames(ds), ", "))
  {
  }

  /** A frame yields at most two events, and a person event always precedes a device event. */
  lemma FrameShape(names: seq<string>)
    ensures var evs := FrameEvents(names);
      && |evs| <= 2
      && (forall i :: 0 <= i < |evs| ==> IsPersonEvent(evs[i]) != IsDeviceEvent(evs[i]))
      && (forall i, j :: 0 <= i < j < |evs| ==> IsPersonEvent(evs[i]) && IsDeviceEvent(evs[j]))
  {
    var person := PersonEvents(multiset(names)[PERSON_LABEL]);
    var device := DeviceEvents(DeviceNames(names));
    KindsDiffer();
    assert forall i :: 0 <= i < |person| ==> IsPersonEvent(person[i]) && !IsDeviceEvent(person[i]);
    assert forall i :: 0 <= i < |device| ==> IsDeviceEvent(device[i]) && !IsPersonEvent(device[i]);
    assert |person| <= 1 && |device| <= 1;
  }

  /** The four event types are distinct strings (they differ in their first letter). */
  lemma KindsDiffer()
    ensures NO_PERSON != PHONE_DETECTED && NO_PERSON != DEVICE_DETECTED
    ensures MULTIPLE_FACES != PHONE_DETECTED && MULTIPLE_FACES != DEVICE_DETECTED
  {
    assert NO_PERSON[0] == 'N' && MULTIPLE_FACES[0] == 'M';
    assert PHONE_DETECTED[0] == 'P' && DEVICE_DETECTED[0] == 'D';
  }

  /** A frame raises a high event exactly when it shows several people or a device. */
  lemma FrameHighIff(names: seq<string>)
    ensures HasHigh(FrameEvents(names))
        <==> multiset(names)[PERSON_LABEL] > MULTI_THRESHOLD || DeviceNames(names) != {}
  {
    var c, ds := multiset(names)[PERSON_LABEL], DeviceNames(names);
    var evs := FrameEvents(names);
    if c > MULTI_THRESHOLD {
      assert evs[0].severity == HIGH;
    } else if ds != {} {
      assert evs[|evs| - 1].severity == HIGH;
    } else {
      assert evs == PersonEvents(c);
    }
  }

  /** The label is "Phone detected" exactly when some detected name mentions a phone. */
  lemma PhoneLabel(names: seq<string>)
    ensures var evs := FrameEvents(names);
      (exists i :: 0 <= i < |evs| && evs[i].kind == PHONE_DETECTED)
        <==> exists n | n in names :: MentionsPhone(n)
  {
    var ds := DeviceNames(names);
    var evs := FrameEvents(names);
    if n :| n in names && MentionsPhone(n) {
      assert "phone" in DEVICE_KEYWORDS;
      assert n in ds;
      assert evs[|evs| - 1].kind == PHONE_DETECTED;
    }
  }

  /** The device and phone tests ignore case: a name and its lower-cased form are judged alike. */
  lemma CaseInsensitive(name: string)
    ensures IsDevice(name) <==> IsDevice(Lower(name))
    ensures MentionsPhone(name) <==> MentionsPhone(Lower(name))
  {
    LowerIdempotent(name);
  }

  /** The keywords left once those containing another keyword are dropped. */
  const MINIMAL_KEYWORDS: set<string> := {"phone", "laptop", "book", "tablet", "keyboard", "mouse"}

  /**
   * "cell phone" and "mobile phone" add nothing to the keyword table: any
   * name containing them also contains "phone".
   */
  lemma RedundantPhoneKeywords(name: string)
    ensures IsDevice(name) <==> exists k | k in MINIMAL_KEYWORDS :: Contains(Lower(name), k)
  {
    var low := Lower(name);
    if Contains(low, "cell phone") {
      ContainsSuffix("cell phone", 5, "phone");
      ContainsTransitive(low, "cell phone", "phone");
    }
    if Contains(low, "mobile phone") {
      ContainsSuffix("mobile phone", 7, "phone");
      ContainsTransitive(low, "mobile phone", "phone");
    }
  }

  lemma {:induction false} ContainsSuffix(s: string, i: nat, k: string)
    requires i <= |s| && k <= s[i..]
    ensures Contains(s, k)
    decreases i
  {
    if i > 0 {
      assert s[1..][i - 1..] == s[i..];
      ContainsSuffix(s[1..], i - 1, k);
    }
  }
}
