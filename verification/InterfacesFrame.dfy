/** What rewriting one interface does to the others. Their stanzas are untouched exactly when no
    setting slides from a dropped auto/allow- line into another interface's stanza; what is read for
    them is unchanged exactly when the settings that do slide change no value. */
module InterfacesFrame {
  import opened Decimal
  import opened Text
  import opened Wrappers
  import opened Interfaces
  import opened InterfacesLaws

  /** The last line that starts an entry. */
  function LastEntry(lines: seq<string>): Option<string> {
    if lines == [] then None
    else if IsEntry(lines[|lines| - 1]) then Some(lines[|lines| - 1])
    else LastEntry(lines[..|lines| - 1])
  }

  /** The last line that starts an entry and survives the removal of `name`. */
  function LastKeptEntry(lines: seq<string>, name: string): Option<string> {
    if lines == [] then None
    else if IsEntry(lines[|lines| - 1]) && Unrelated(lines[|lines| - 1], name) then Some(lines[|lines| - 1])
    else LastKeptEntry(lines[..|lines| - 1], name)
  }

  /** What the rewrite takes out of a file: the auto/allow- and iface lines of `name`, and the option
      lines whose entry is such an iface line. */
  predicate Removed(before: seq<string>, line: string, name: string) {
    || DropsAuto(line, name)
    || DropsIface(line, name)
    || (IsOption(line) && LastEntry(before).Some? && DropsIface(LastEntry(before).value, name))
  }

  /** The lines that are not taken out, in order. */
  function Survivors(lines: seq<string>, name: string): seq<string> {
    if lines == [] then []
    else
      var init, last := lines[..|lines| - 1], lines[|lines| - 1];
      Survivors(init, name) + if Removed(init, last, name) then [] else [last]
  }

  /** Every other line survives, unchanged and in its place. */
  lemma {:induction false} KeptExactly(lines: seq<string>, name: string)
    ensures Kept(lines, name) == Survivors(lines, name)
    ensures RewriteFrom(FRESH, lines, name).skipping ==
              (LastEntry(lines).Some? && DropsIface(LastEntry(lines).value, name))
  {
    if lines != [] {
      KeptExactly(lines[..|lines| - 1], name);
    }
  }

  /** After `lines`, a setting would sit under a dropped auto/allow- line, right after the stanza of
      `other` once the dropped lines are gone. */
  predicate Slides(lines: seq<string>, name: string, other: string) {
    && LastEntry(lines).Some? && DropsAuto(LastEntry(lines).value, name)
    && LastKeptEntry(lines, name).Some? && OpensInet(LastKeptEntry(lines, name).value, other)
  }

  /** Line `k` is a setting that slides into the last stanza of `other`. */
  predicate LeaksAt(lines: seq<string>, name: string, other: string, k: nat) {
    && k < |lines| && IsSetting(lines[k]) && Slides(lines[..k], name, other)
    && forall j | k < j < |lines| :: !OpensInet(lines[j], other)
  }

  ghost predicate Leaks(lines: seq<string>, name: string, other: string) {
    exists k: nat :: LeaksAt(lines, name, other, k)
  }

  lemma {:induction false} LeaksSnoc(lines: seq<string>, x: string, name: string, other: string)
    ensures Leaks(lines + [x], name, other) <==>
              || (Leaks(lines, name, other) && !OpensInet(x, other))
              || (IsSetting(x) && Slides(lines, name, other))
  {
    var all := lines + [x];
    if Leaks(all, name, other) {
      var k: nat :| LeaksAt(all, name, other, k);
      if k < |lines| {
        assert all[..k] == lines[..k];
        assert !OpensInet(all[|lines|], other);
        assert LeaksAt(lines, name, other, k) by {
          forall j | k < j < |lines| ensures !OpensInet(lines[j], other) {
            assert all[j] == lines[j];
          }
        }
      } else {
        assert all[..k] == lines;
      }
    }
    if Leaks(lines, name, other) && !OpensInet(x, other) {
      var k: nat :| LeaksAt(lines, name, other, k);
      assert all[..k] == lines[..k];
      assert LeaksAt(all, name, other, k);
    }
    if IsSetting(x) && Slides(lines, name, other) {
      assert all[..|lines|] == lines;
      assert LeaksAt(all, name, other, |lines|);
    }
  }

  /** The settings that leak into the last stanza of `other`, in order. */
  function Leaked(lines: seq<string>, name: string, other: string): seq<string> {
    if lines == [] then []
    else
      var init, x := lines[..|lines| - 1], lines[|lines| - 1];
      if OpensInet(x, other) then []
      else if IsSetting(x) && Slides(init, name, other) then Leaked(init, name, other) + [x]
      else Leaked(init, name, other)
  }

  lemma {:induction false} LeakedSnoc(lines: seq<string>, x: string, name: string, other: string)
    ensures Leaked(lines + [x], name, other) ==
              if OpensInet(x, other) then []
              else if IsSetting(x) && Slides(lines, name, other) then Leaked(lines, name, other) + [x]
              else Leaked(lines, name, other)
  {
    assert (lines + [x])[..|lines|] == lines;
  }

  lemma {:induction false} LeaksIffLeaked(lines: seq<string>, name: string, other: string)
    ensures Leaks(lines, name, other) <==> Leaked(lines, name, other) != []
  {
    if lines == [] {
      assert !Leaks([], name, other);
    } else {
      var init, x := lines[..|lines| - 1], lines[|lines| - 1];
      assert lines == init + [x];
      LeaksIffLeaked(init, name, other);
      LeaksSnoc(init, x, name, other);
      LeakedSnoc(init, x, name, other);
      SettingOpensNothing(x, other);
    }
  }

  lemma {:induction false} SettingOpensNothing(x: string, other: string)
    ensures IsSetting(x) ==> !OpensInet(x, other)
  {
  }

  predicate Opens(entry: Option<string>, other: string) {
    entry.Some? && OpensInet(entry.value, other)
  }

  function Extended(stanza: Option<Stanza>, more: seq<string>): Option<Stanza> {
    match stanza
    case None => None
    case Some(s) => Some(s.(settings := s.settings + more))
  }

  /** The parser for `other` on the file and on what survives of it. */
  ghost predicate InStep(lines: seq<string>, name: string, other: string) {
    var a, rw := ScanFrom(UNSEEN, lines, other), RewriteFrom(FRESH, lines, name);
    var b := ScanFrom(UNSEEN, rw.kept, other);
    && a.open == Opens(LastEntry(lines), other)
    && b.open == Opens(LastKeptEntry(lines, name), other)
    && rw.skipping == (LastEntry(lines).Some? && DropsIface(LastEntry(lines).value, name))
    && (a.open ==> b.open && Leaked(lines, name, other) == [])
    && (b.open ==> a.stanza.Some?)
    && (a.stanza.None? ==> Leaked(lines, name, other) == [])
    && b.stanza == Extended(a.stanza, Leaked(lines, name, other))
  }

  lemma {:induction false} EntryKept(lines: seq<string>, name: string)
    requires LastEntry(lines).Some? && Unrelated(LastEntry(lines).value, name)
    ensures LastKeptEntry(lines, name) == LastEntry(lines)
  {
    if !IsEntry(lines[|lines| - 1]) {
      EntryKept(lines[..|lines| - 1], name);
    }
  }

  lemma {:induction false} KeptEntryIsEntry(lines: seq<string>, name: string)
    ensures LastKeptEntry(lines, name).Some? ==> LastEntry(lines).Some?
  {
    if lines != [] {
      KeptEntryIsEntry(lines[..|lines| - 1], name);
    }
  }

  lemma {:induction false} OpenerIsUnrelated(line: string, name: string, other: string)
    requires OpensInet(line, other) && name != other
    ensures Unrelated(line, name)
  {
    assert "iface"[0] == 'i' && "auto"[0] == 'a' && "allow-"[0] == 'a';
  }

  /** Appending one line to each side. */
  lemma {:induction false} Appended(lines: seq<string>, x: string, name: string, other: string)
    ensures var rw := RewriteFrom(FRESH, lines, name);
            && RewriteFrom(FRESH, lines + [x], name) == RewriteStep(rw, x, name)
            && ScanFrom(UNSEEN, lines + [x], other) == ScanStep(ScanFrom(UNSEEN, lines, other), x, other)
            && ScanFrom(UNSEEN, rw.kept + [x], other) == ScanStep(ScanFrom(UNSEEN, rw.kept, other), x, other)
            && LastEntry(lines + [x]) == (if IsEntry(x) then Some(x) else LastEntry(lines))
            && LastKeptEntry(lines + [x], name) ==
                 (if IsEntry(x) && Unrelated(x, name) then Some(x) else LastKeptEntry(lines, name))
  {
    var rw := RewriteFrom(FRESH, lines, name);
    assert (lines + [x])[..|lines|] == lines;
    assert (rw.kept + [x])[..|rw.kept|] == rw.kept;
  }

  lemma {:induction false} ExtendedMore(stanza: Option<Stanza>, more: seq<string>, x: string)
    ensures Extended(stanza, []) == stanza
    ensures stanza.Some? ==>
              var s := Extended(stanza, more).value;
              Extended(stanza, more + [x]) == Some(s.(settings := s.settings + [x]))
  {
    if stanza.Some? {
      var own := stanza.value.settings;
      assert own + [] == own && own + (more + [x]) == own + more + [x];
    }
  }

  lemma {:induction false} EntryInStep(lines: seq<string>, x: string, name: string, other: string)
    requires InStep(lines, name, other) && name != other && IsEntry(x)
    ensures InStep(lines + [x], name, other)
  {
    Appended(lines, x, name, other);
    LeakedSnoc(lines, x, name, other);
    if OpensInet(x, other) {
      OpenerIsUnrelated(x, name, other);
      ExtendedMore(Some(Stanza(LineFields(x)[3] == "static", [])), [], x);
    }
  }

  lemma {:induction false} OtherLineInStep(lines: seq<string>, x: string, name: string, other: string)
    requires InStep(lines, name, other) && name != other && !IsEntry(x)
    ensures InStep(lines + [x], name, other)
  {
    var a := ScanFrom(UNSEEN, lines, other);
    Appended(lines, x, name, other);
    LeakedSnoc(lines, x, name, other);
    KeptEntryIsEntry(lines, name);
    if LastEntry(lines).Some? {
      if Unrelated(LastEntry(lines).value, name) { EntryKept(lines, name); }
      if OpensInet(LastEntry(lines).value, other) { OpenerIsUnrelated(LastEntry(lines).value, name, other); }
    }
    ExtendedMore(a.stanza, Leaked(lines, name, other), x);
    if a.stanza.Some? {
      ExtendedMore(Some(a.stanza.value.(settings := a.stanza.value.settings + [x])), [], x);
    }
  }

  lemma {:induction false} AlwaysInStep(lines: seq<string>, name: string, other: string)
    requires name != other
    ensures InStep(lines, name, other)
  {
    if lines == [] {
      assert Extended(None, []) == None;
    } else {
      AlwaysInStep(lines[..|lines| - 1], name, other);
      if IsEntry(lines[|lines| - 1]) {
        EntryInStep(lines[..|lines| - 1], lines[|lines| - 1], name, other);
      } else {
        OtherLineInStep(lines[..|lines| - 1], lines[|lines| - 1], name, other);
      }
      assert lines == lines[..|lines| - 1] + [lines[|lines| - 1]];
    }
  }

  lemma {:induction false} BlankLinesSayNothing(lines: seq<string>, other: string)
    ensures ScanFrom(UNSEEN, TrimBlank(lines), other) == ScanFrom(UNSEEN, lines, other)
  {
    if lines != [] && TrimSpace(lines[|lines| - 1]) == "" {
      BlankLinesSayNothing(lines[..|lines| - 1], other);
    }
  }

  lemma {:induction false} ClosedReadsNothing(st: Scan, lines: seq<string>, other: string)
    requires !st.open && forall l | l in lines :: !OpensInet(l, other)
    ensures ScanFrom(st, lines, other) == st
  {
    if lines != [] {
      ClosedReadsNothing(st, lines[..|lines| - 1], other);
      assert lines[|lines| - 1] in lines;
    }
  }

  lemma {:induction false} ScanTwo(st: Scan, x: string, y: string, other: string)
    ensures ScanFrom(st, [x, y], other) == ScanStep(ScanStep(st, x, other), y, other)
  {
    assert [x, y][..1] == [x] && [x][..0] == [];
    assert ScanFrom(st, [x], other) == ScanStep(st, x, other);
  }

  lemma {:induction false} HeaderIsForeign(name: string, cfg: IfaceConfig, other: string)
    requires IsWord(name) && name != other
    ensures forall l | l in StanzaLines(name, cfg)[1..] + [""] :: !OpensInet(l, other)
  {
    var header := StanzaLines(name, cfg)[1];
    HeaderFields(name, cfg);
    SettingLinesAreOptions(cfg);
    forall l | l in StanzaLines(name, cfg)[1..] + [""]
      ensures !OpensInet(l, other)
    {
      assert StanzaLines(name, cfg)[1..] == [header] + SettingLines(cfg);
      if l == header {
        assert LineFields(l)[1] == name;
      } else {
        assert l in SettingLines(cfg) || l == "";
      }
    }
  }

  /** A built stanza says nothing about other interfaces. */
  lemma {:induction false} BuiltSaysNothing(st: Scan, name: string, cfg: IfaceConfig, other: string)
    requires IsWord(name) && name != other
    ensures ScanFrom(st, [""] + (StanzaLines(name, cfg) + [""]), other).stanza == st.stanza
  {
    var auto, rest := "auto " + name, StanzaLines(name, cfg)[1..] + [""];
    AutoFields(name);
    assert "auto"[0] != "iface"[0];
    assert !IsEntry("") && !IsSetting("");
    ScanTwo(st, "", auto, other);
    assert ScanFrom(st, ["", auto], other) == st.(open := false);
    HeaderIsForeign(name, cfg, other);
    ClosedReadsNothing(st.(open := false), rest, other);
    ScanConcat(st, ["", auto], rest, other);
    assert StanzaLines(name, cfg)[0] == auto;
    assert ["", auto] + rest == [""] + (StanzaLines(name, cfg) + [""]);
  }

  lemma {:induction false} TailSaysNothing(kept: seq<string>, name: string, cfg: IfaceConfig, other: string)
    requires IsWord(name) && name != other
    ensures LastStanza(TrimBlank(kept) + [""] + (StanzaLines(name, cfg) + [""]), other) == LastStanza(kept, other)
  {
    var t, tail := TrimBlank(kept), [""] + (StanzaLines(name, cfg) + [""]);
    assert t + [""] + (StanzaLines(name, cfg) + [""]) == t + tail;
    BlankLinesSayNothing(kept, other);
    ScanConcat(UNSEEN, t, tail, other);
    BuiltSaysNothing(ScanFrom(UNSEEN, t, other), name, cfg, other);
  }

  lemma {:induction false} RewrittenStanza(data: string, name: string, cfg: IfaceConfig, other: string)
    requires IsWord(name) && OneLineValues(cfg) && name != other
    ensures LastStanza(Lines(Rewritten(data, name, Built(name, cfg))), other) == LastStanza(Kept(Lines(data), name), other)
  {
    LinesOfRewritten(data, name, Built(name, cfg));
    LinesOfBuilt(name, cfg);
    TailSaysNothing(Kept(Lines(data), name), name, cfg, other);
  }

  lemma {:induction false} ExtendedSame(stanza: Option<Stanza>, more: seq<string>)
    requires stanza.None? ==> more == []
    ensures Extended(stanza, more) == stanza <==> more == []
  {
    if stanza.Some? {
      var own := stanza.value.settings;
      assert own + [] == own && |own + more| == |own| + |more|;
    }
  }

  /** Rewriting `name` appends the leaked settings to the stanza of another interface, so it leaves that
      stanza as it was exactly when no setting leaks into it. */
  lemma {:induction false} StanzaFrame(data: string, name: string, cfg: IfaceConfig, other: string)
    requires IsWord(name) && OneLineValues(cfg) && name != other
    ensures var before, after := LastStanza(Lines(data), other), LastStanza(Lines(Rewritten(data, name, Built(name, cfg))), other);
            && after == Extended(before, Leaked(Lines(data), name, other))
            && (after == before <==> !Leaks(Lines(data), name, other))
  {
    AlwaysInStep(Lines(data), name, other);
    LeaksIffLeaked(Lines(data), name, other);
    RewrittenStanza(data, name, cfg, other);
    ExtendedSame(LastStanza(Lines(data), other), Leaked(Lines(data), name, other));
  }

  /** The values of `b` where it has any, else those of `a`. */
  function Override(a: Values, b: Values): Values {
    Values(if b.address != [] then b.address else a.address,
           if b.netmask != [] then b.netmask else a.netmask,
           if b.gateway != [] then b.gateway else a.gateway,
           if b.dns != [] then b.dns else a.dns)
  }

  lemma {:induction false} LastValueConcat(a: seq<string>, b: seq<string>, key: string)
    ensures LastValue(a + b, key) == if LastValue(b, key) != [] then LastValue(b, key) else LastValue(a, key)
  {
    if b == [] {
      assert a + b == a;
    } else {
      LastValueConcat(a, b[..|b| - 1], key);
      assert (a + b)[..|a + b| - 1] == a + b[..|b| - 1];
    }
  }

  lemma {:induction false} ValuesOfConcat(a: seq<string>, b: seq<string>)
    ensures ValuesOf(a + b) == Override(ValuesOf(a), ValuesOf(b))
  {
    LastValueConcat(a, b, "address");
    LastValueConcat(a, b, "netmask");
    LastValueConcat(a, b, "gateway");
    LastValueConcat(a, b, "dns-nameservers");
  }

  /** Leaked settings change nothing the parser returns: the stanza is not static, or each leaked
      gateway and DNS value is the stanza's own, and so is the address with its prefix length. */
  predicate Harmless(stanza: Stanza, leaked: seq<string>, prefix: string -> Int64) {
    var own, more := ValuesOf(stanza.settings), ValuesOf(leaked);
    var all := Override(own, more);
    !stanza.static_ ||
    (&& (more.gateway == [] || more.gateway[0] == FirstOr(own.gateway))
     && (more.dns == [] || more.dns == own.dns)
     && FullAddress(FirstOr(all.address), FirstOr(all.netmask), prefix) ==
          FullAddress(FirstOr(own.address), FirstOr(own.netmask), prefix))
  }

  lemma {:induction false} HarmlessIsExact(stanza: Stanza, leaked: seq<string>, prefix: string -> Int64)
    ensures Meaning(Extended(Some(stanza), leaked), prefix) == Meaning(Some(stanza), prefix)
            <==> Harmless(stanza, leaked, prefix)
  {
    ValuesOfConcat(stanza.settings, leaked);
    var own, more := ValuesOf(stanza.settings), ValuesOf(leaked);
    var a, b := Meaning(Extended(Some(stanza), leaked), prefix), Meaning(Some(stanza), prefix);
    if stanza.static_ {
      assert a.gateway == b.gateway <==> more.gateway == [] || more.gateway[0] == FirstOr(own.gateway);
      assert a.dns == b.dns <==> more.dns == [] || more.dns == own.dns;
    }
  }

  /** Rewriting `name` leaves what is read for another interface as it was exactly when that interface
      has no stanza, or the settings that leak into its stanza are harmless. */
  lemma {:induction false} Frame(data: string, name: string, cfg: IfaceConfig, other: string, prefix: string -> Int64)
    requires IsWord(name) && OneLineValues(cfg) && name != other
    ensures Parsed(Rewritten(data, name, Built(name, cfg)), other, prefix) == Parsed(data, other, prefix)
            <==> match LastStanza(Lines(data), other)
                 case None => true
                 case Some(s) => Harmless(s, Leaked(Lines(data), name, other), prefix)
  {
    StanzaFrame(data, name, cfg, other);
    match LastStanza(Lines(data), other)
    case None =>
    case Some(s) => HarmlessIsExact(s, Leaked(Lines(data), name, other), prefix);
  }

  /** A file with no option line under a dropped auto/allow- line keeps every other interface. */
  lemma {:induction false} FrameForAll(data: string, name: string, cfg: IfaceConfig, prefix: string -> Int64)
    requires IsWord(name) && OneLineValues(cfg)
    requires forall k | 0 <= k < |Lines(data)| && IsOption(Lines(data)[k]) ::
               LastEntry(Lines(data)[..k]).None? || !DropsAuto(LastEntry(Lines(data)[..k]).value, name)
    ensures forall other | other != name ::
              Parsed(Rewritten(data, name, Built(name, cfg)), other, prefix) == Parsed(data, other, prefix)
  {
    forall other | other != name
      ensures Parsed(Rewritten(data, name, Built(name, cfg)), other, prefix) == Parsed(data, other, prefix)
    {
      StanzaFrame(data, name, cfg, other);
    }
  }

  /** The frame does fail: with an option line under the dropped `auto` line, the value slides into
      the stanza of the interface before it. */
  lemma {:induction false} FrameFails(name: string, other: string, value: string, cfg: IfaceConfig, prefix: string -> Int64)
    requires IsWord(name) && IsWord(other) && IsWord(value) && name != other && OneLineValues(cfg)
    ensures var data := Join(["iface " + other + " inet static", "auto " + name, "\taddress " + value], "\n");
            && Parsed(data, other, prefix).address == ""
            && Parsed(Rewritten(data, name, Built(name, cfg)), other, prefix).address == value
  {
    var header, auto, setting := "iface " + other + " inet static", "auto " + name, "\taddress " + value;
    var lines := [header, auto, setting];
    ThreeLinesFields(name, other, value);
    ThreeLines(header, auto, setting);
    ThreeLinesScanned(lines, name, other, value);
    RewrittenStanza(Join(lines, "\n"), name, cfg, other);
  }

  lemma {:induction false} ThreeLines(header: string, auto: string, setting: string)
    requires IsLine(header) && IsLine(auto) && IsLine(setting)
    ensures Lines(Join([header, auto, setting], "\n")) == [header, auto, setting]
  {
    LinesOfJoin([header, auto], setting);
    LinesOfLine(setting);
    assert [header, auto] + [setting] == [header, auto, setting];
  }

  lemma {:induction false} ThreeLinesFields(name: string, other: string, value: string)
    requires IsWord(name) && IsWord(other) && IsWord(value)
    ensures var header, auto, setting := "iface " + other + " inet static", "auto " + name, "\taddress " + value;
            && IsLine(header) && IsEntry(header) && LineFields(header) == ["iface", other, "inet", "static"]
            && IsLine(auto) && IsEntry(auto) && LineFields(auto) == ["auto", name]
            && IsLine(setting) && IsSetting(setting) && LineFields(setting) == ["address", value]
  {
    HeaderFields(other, IfaceConfig(false, "", "", []));
    AutoFields(name);
    assert "\t" + "address" + " " == "\taddress ";
    OptionFields("address", value);
    FieldsOfWord(value);
    ConcatIsLine("iface " + other, " inet static");
    ConcatIsLine("iface ", other);
    ConcatIsLine("auto ", name);
    ConcatIsLine("\taddress ", value);
  }

  lemma {:induction false} TwoLinesScanned(x: string, y: string, name: string)
    requires OpensInet(x, name) && LineFields(x)[3] == "static"
    ensures IsEntry(y) && !OpensInet(y, name) ==> ScanFrom(UNSEEN, [x, y], name) == Scan(false, Some(Stanza(true, [])))
    ensures IsSetting(y) ==> ScanFrom(UNSEEN, [x, y], name) == Scan(true, Some(Stanza(true, [y])))
  {
    ScanTwo(UNSEEN, x, y, name);
    assert ScanStep(UNSEEN, x, name) == Scan(true, Some(Stanza(true, [])));
    assert [] + [y] == [y];
  }

  lemma {:induction false} ThreeLinesKept(lines: seq<string>, name: string)
    requires |lines| == 3 && Unrelated(lines[0], name) && IsEntry(lines[0])
    requires DropsAuto(lines[1], name) && IsSetting(lines[2])
    ensures Kept(lines, name) == [lines[0], lines[2]]
  {
    assert lines[..2][..1] == lines[..1] && lines[..1][..0] == [];
    assert RewriteFrom(FRESH, lines[..1], name) == Rewrite(false, [lines[0]]);
    assert RewriteFrom(FRESH, lines[..2], name) == Rewrite(false, [lines[0]]);
  }

  lemma {:induction false} ThreeLinesScanned(lines: seq<string>, name: string, other: string, value: string)
    requires |lines| == 3 && name != other
    requires IsEntry(lines[0]) && LineFields(lines[0]) == ["iface", other, "inet", "static"]
    requires IsEntry(lines[1]) && LineFields(lines[1]) == ["auto", name]
    requires IsSetting(lines[2]) && LineFields(lines[2]) == ["address", value]
    ensures LastStanza(lines, other) == Some(Stanza(true, []))
    ensures LastStanza(Kept(lines, name), other) == Some(Stanza(true, [lines[2]]))
  {
    assert "auto"[0] != "iface"[0] && ["auto", name][1..] == [name];
    assert DropsAuto(lines[1], name) && !OpensInet(lines[1], other) && OpensInet(lines[0], other);
    OpenerIsUnrelated(lines[0], name, other);
    ThreeLinesKept(lines, name);
    TwoLinesScanned(lines[0], lines[2], other);
    TwoLinesScanned(lines[0], lines[1], other);
    assert lines[..2] == [lines[0], lines[1]];
  }
}
