/**
 Runs of edits of `main.cf`: what they keep, what repeating one does, and what is written last.
 */
module PostfixRuns {
  import opened Text
  import opened Postfix
  import opened PostfixSettings

  // ---- Runs of edits -----------------------------------------------------------------------------------

  /** What a request does to the lines that are not blank. */
  function After(es: seq<string>, r: Request): seq<string> {
    if Accepted(r) then Select(Kept(FeatureOf(r)), es) + Added(r) else es
  }

  lemma {:induction false} HandledEntries(text: string, r: Request)
    requires '\r' !in text
    ensures '\r' !in Handle(text, r) && Entries(Handle(text, r)) == After(Entries(text), r)
  {
    if Accepted(r) {
      AddedProper(r);
      EditedEntries(text, FeatureOf(r), Added(r));
    }
  }

  lemma ForeignStep(es: seq<string>, r: Request)
    ensures Select(Foreign, After(es, r)) == Select(Foreign, es)
  {
    if Accepted(r) {
      var feature := FeatureOf(r);
      AddedProper(r);
      hide Added, Select, Accepted, FeatureOf, Dropped;
      SelectAppend(Foreign, Select(Kept(feature), es), Added(r));
      SelectImplied(Foreign, Kept(feature), es);
      SelectNone(Foreign, Added(r));
    }
  }

  /** No run of requests adds, removes, alters or reorders a line that none of the features owns. */
  lemma {:induction false} ForeignLinesKept(text: string, rs: seq<Request>)
    requires '\r' !in text
    ensures Select(Foreign, Entries(HandleAll(text, rs))) == Select(Foreign, Entries(text))
    decreases |rs|
  {
    if rs == [] {
    } else {
      HandledEntries(text, rs[0]);
      ForeignStep(Entries(text), rs[0]);
      ForeignLinesKept(Handle(text, rs[0]), rs[1..]);
    }
  }

  lemma BlankIsKept(feature: Feature)
    ensures Picks(Kept(feature), "")
  {
    NamesApart();
    NotContainsChar("", RELAY_NOTE, 0);
    NotContainsChar("", RATE_NOTE, 0);
  }

  /** The lines that an edit keeps are all kept by the same edit again. */
  lemma KeptTwice(feature: Feature, ls: seq<string>)
    ensures Select(Kept(feature), Select(Kept(feature), ls)) == Select(Kept(feature), ls)
  {
    SelectImplied(Kept(feature), Kept(feature), ls);
  }

  /** Repeating a setter changes nothing, byte for byte. */
  lemma {:induction false} SetterTwice(text: string, r: Request)
    requires '\r' !in text && (r.RelayConfigure? || r.RateLimitSet? || r.TlsEnforce?)
    ensures Handle(Handle(text, r), r) == Handle(text, r)
  {
    if Accepted(r) {
      AddedProper(r);
      assert Added(r) != [];
      var feature, added := FeatureOf(r), Added(r);
      assert Handle(text, r) == Edit(text, feature, added);
      assert Handle(Handle(text, r), r) == Edit(Edit(text, feature, added), feature, added);
      EditTwice(text, feature, added);
    }
  }

  lemma ProperIsDropped(feature: Feature, added: seq<string>)
    requires ProperBlock(feature, added)
    ensures AllClean(added) && Select(Kept(feature), added) == []
  {
    hide Dropped, Clean;
    assert forall i | 0 <= i < |added| :: !Picks(Kept(feature), added[i]);
    SelectNone(Kept(feature), added);
  }

  lemma {:induction false} KeptAgain(text: string, feature: Feature, added: seq<string>)
    requires '\r' !in text && added != [] && ProperBlock(feature, added)
    ensures var kept := Select(Kept(feature), Lines(text));
            Select(Kept(feature), Lines(Edit(text, feature, added))) == if kept == [] then [""] else kept
  {
    hide *;
    var kept := Select(Kept(feature), Lines(text));
    var front := if kept == [] then [""] else kept;
    ProperIsDropped(feature, added);
    EditedLines(text, feature, added);
    BlankIsKept(feature);
    KeptTwice(feature, Lines(text));
    SelectAll(Kept(feature), [""]);
    SelectAppend(Kept(feature), front, added);
  }

  lemma EditTwice(text: string, feature: Feature, added: seq<string>)
    requires '\r' !in text && added != [] && ProperBlock(feature, added)
    ensures Edit(Edit(text, feature, added), feature, added) == Edit(text, feature, added)
  {
    hide Select, Lines, ProperBlock;
    KeptAgain(text, feature, added);
    JoinNothing();
  }

  /** Repeating a removal changes nothing exactly when no blank line was left at the end. */
  lemma {:induction false} RemovalTwiceExactly(text: string, feature: Feature)
    requires '\r' !in text
    ensures var kept := Select(Kept(feature), Lines(text));
            Edit(Edit(text, feature, []), feature, []) == Edit(text, feature, [])
            <==> !(|kept| > 1 && kept[|kept| - 1] == "")
  {
    var kept := Select(Kept(feature), Lines(text));
    EditedLines(text, feature, []);
    assert Edit(text, feature, []) == Join(kept, "\n");
    KeptTwice(feature, Lines(text));
    if kept != [] && kept[|kept| - 1] == "" {
      var front := kept[..|kept| - 1];
      KeptFront(feature, Lines(text));
      assert Edit(Edit(text, feature, []), feature, []) == Join(front, "\n");
      hide *;
      JoinWithoutLast(kept);
    }
  }

  lemma JoinWithoutLast(kept: seq<string>)
    requires kept != [] && kept[|kept| - 1] == ""
    ensures Join(kept, "\n") == Join(kept[..|kept| - 1], "\n") <==> |kept| == 1
  {
    var front := kept[..|kept| - 1];
    assert kept == front + [""];
    if front == [] {
      JoinNothing();
    } else {
      JoinBlank(front);
    }
  }

  lemma KeptFront(feature: Feature, ls: seq<string>)
    requires var kept := Select(Kept(feature), ls); kept != []
    ensures var front := Select(Kept(feature), ls)[..|Select(Kept(feature), ls)| - 1];
            Select(Kept(feature), front) == front
  {
    var kept := Select(Kept(feature), ls);
    var front := kept[..|kept| - 1];
    forall i | 0 <= i < |front|
      ensures Picks(Kept(feature), front[i])
    {
      SelectIsPart(Kept(feature), ls, i);
    }
    SelectAll(Kept(feature), front);
  }

  lemma {:induction false} JoinBlank(front: seq<string>)
    requires front != []
    ensures Join(front + [""], "\n") == Join(front, "\n") + "\n"
  {
    if |front| > 1 {
      JoinBlank(front[1..]);
      assert (front + [""])[1..] == front[1..] + [""];
      assert Join(front + [""], "\n") == front[0] + "\n" + (Join(front[1..], "\n") + "\n");
    } else {
      assert (front + [""])[1..] == [""];
      assert Join([""], "\n") == "";
    }
  }

  lemma NoteNotNamed(r: Request, name: string)
    requires name != "" && name[0] != '#'
    ensures Select(Named(name), Notes(r)) == []
  {
    assert RELAY_NOTE[0] == '#' && RATE_NOTE[0] == '#';
    forall i | 0 <= i < |Notes(r)|
      ensures !Picks(Named(name), Notes(r)[i])
    {
      assert Notes(r)[i][0] == '#';
    }
    SelectNone(Named(name), Notes(r));
  }

  lemma SettingNameStart(r: Request, i: nat)
    requires Accepted(r) && i < |Settings(r)|
    ensures Settings(r)[i].name != "" && Settings(r)[i].name[0] != '#'
  {
    SettingsOwned(r);
    hide Settings, Accepted, FeatureOf;
    assert RELAY_HOST[0] != '#' && SASL[0] != '#' && TLS[0] != '#' && INBOUND[0] != '#' && OUTBOUND[0] != '#'
        && RATE_DELAY[0] != '#' && RECIPIENTS[0] != '#';
  }

  lemma SettingOnce(es: seq<string>, r: Request, i: nat)
    requires Accepted(r) && i < |Settings(r)|
    ensures var s := Settings(r)[i]; Select(Named(s.name), After(es, r)) == [Line(s)]
  {
    var s := Settings(r)[i];
    SettingsApart(r);
    OneLine(Settings(r), i);
    SettingNameStart(r, i);
    NoteNotNamed(r, s.name);
    SettingsOwned(r);
    hide Settings, Notes, Select, Accepted, Owns, AllApart;
    SelectAppend(Named(s.name), Notes(r), Map(Line, Settings(r)));
    SelectAppend(Named(s.name), Select(Kept(FeatureOf(r)), es), Added(r));
    OwnedGone(FeatureOf(r), s.name, es);
  }

  /** Each setting just written stands in the file exactly once under its name, with the value written. */
  lemma {:induction false} WrittenOnce(text: string, r: Request, i: nat)
    requires '\r' !in text && Accepted(r) && i < |Settings(r)|
    ensures var s := Settings(r)[i]; Select(Named(s.name), Entries(Handle(text, r))) == [Directive(s.name, s.value)]
  {
    HandledEntries(text, r);
    SettingOnce(Entries(text), r, i);
  }

  lemma OwnedGone(feature: Feature, name: string, es: seq<string>)
    requires Owns(feature, name)
    ensures Select(Named(name), Select(Kept(feature), es)) == []
  {
    hide Dropped, Owns;
    forall i | 0 <= i < |es| && Picks(Named(name), es[i])
      ensures !Picks(Kept(feature), es[i])
    {
      OwnedIsDropped(feature, es[i], name);
    }
    SelectDisjoint(Named(name), Kept(feature), es);
  }
}
