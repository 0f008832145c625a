/** `generate_menus` and the part of `main` that composes the document: each
    event is rendered through a template into a sub-menu, the sub-menus are
    concatenated, and three such blocks are rendered once more into the final
    menu. The template engine is a parameter: a function from a template name
    and a context to a text or an error message. */
module Menus {
  import opened Outcomes
  import opened Events
  import opened TipMacros
  import opened Partitioning

  const TopLevelMenuTemplate: string := "lfgmacros.vm"
  const TeamEventTemplate: string := "task_strike_trial_lfg.vm"
  const LeagueEventTemplate: string := "league_lfg.vm"

  /** The bindings a template sees: `content`, and for an event with tips
      also `tips` and `tip_macros`; or the three blocks of the top-level
      menu. */
  datatype Context =
    | EventContext(content: GroupEvent, tips: Option<seq<Tip>>, tipMacros: Option<string>)
    | TopLevelContext(groupOne: string, groupTwo: string, leagueEvents: string)

  datatype Rendered = Rendered(text: string) | RenderFailed(message: string)

  /** `tera.render(template_name, &context)`. */
  type Renderer = (string, Context) -> Rendered

  /** The context the program binds for one event. */
  function ContextOf(e: GroupEvent): Context {
    var tips := GetTips(e);
    if tips == [] then EventContext(e, None, None)
    else EventContext(e, Some(tips), Some(TipMacroList(tips)))
  }

  /** The tip bindings are present exactly when the event has tips, and then
      `tip_macros` is the tips' statements joined by the separator. */
  lemma ContextBindings(e: GroupEvent)
    ensures var ctx := ContextOf(e);
      && ctx.EventContext? && ctx.content == e
      && (ctx.tips.None? <==> e.tips == [])
      && (ctx.tipMacros.None? <==> e.tips == [])
      && (e.tips != [] ==>
            ctx.tips == Some(e.tips) && ctx.tipMacros == Some(Join(Fragments(e.tips), Separator)))
  {
  }

  /** The body of the loop over events up to the call of the renderer: push
      one statement and a separator per tip, drop the last separator, and
      bind the context. */
  method BuildContext(event: GroupEvent) returns (ctx: Context)
    ensures ctx == ContextOf(event)
    ensures ctx.content == event
    ensures ctx.tips.None? && ctx.tipMacros.None? <==> event.tips == []
    ensures event.tips != [] ==>
      ctx.tips == Some(event.tips) && ctx.tipMacros == Some(Join(Fragments(event.tips), Separator))
  {
    var tips := GetTips(event);
    var tipMacros := "";
    if tips != [] {
      for i := 0 to |tips|
        invariant tipMacros == MacroBuffer(tips[..i])
      {
        assert tips[..i + 1][..i] == tips[..i];
        tipMacros := tipMacros + Fragment(tips[i]) + Separator;
      }
    }
    ctx := EventContext(event, None, None);
    if tips != [] {
      assert tips[..|tips|] == tips;
      tipMacros := DropTrailingSeparator(tipMacros);
      ctx := ctx.(tips := Some(tips), tipMacros := Some(tipMacros));
    }
    ContextBindings(event);
  }

  /** The outcome of rendering `events` one after the other: the sub-menus
      concatenated, or the first failure. */
  function MenusOf(render: Renderer, template: string, events: seq<GroupEvent>): (r: Result<string>)
    ensures r.Err? ==> r.error.TemplateError?
  {
    if events == [] then Ok("")
    else
      match MenusOf(render, template, events[..|events| - 1])
      case Err(e) => Err(e)
      case Ok(menus) =>
        match render(template, ContextOf(events[|events| - 1]))
        case RenderFailed(message) => Err(TemplateError(message))
        case Rendered(subMenu) => Ok(menus + subMenu)
  }

  /** `generate_menus`: a failure to render aborts with nothing returned. */
  method GenerateMenus(render: Renderer, template: string, events: seq<GroupEvent>)
    returns (r: Result<string>)
    ensures r == MenusOf(render, template, events)
  {
    var menus := "";
    for i := 0 to |events|
      invariant MenusOf(render, template, events[..i]) == Ok(menus)
    {
      assert events[..i + 1][..i] == events[..i];
      var context := BuildContext(events[i]);
      match render(template, context)
      case RenderFailed(message) =>
        MenusFailureSticks(render, template, events, i + 1);
        return Err(TemplateError(message));
      case Rendered(subMenu) =>
        menus := menus + subMenu;
    }
    assert events[..|events|] == events;
    return Ok(menus);
  }

  /** Once a prefix has failed, the whole sequence fails the same way. */
  lemma {:induction false} MenusFailureSticks(render: Renderer, template: string, events: seq<GroupEvent>, k: nat)
    requires 0 < k <= |events|
    requires MenusOf(render, template, events[..k]).Err?
    ensures MenusOf(render, template, events) == MenusOf(render, template, events[..k])
    decreases |events| - k
  {
    if k == |events| {
      assert events[..k] == events;
    } else {
      var init := events[..|events| - 1];
      assert init[..k] == events[..k];
      MenusFailureSticks(render, template, init, k);
    }
  }

  // Reference definition: render every event, then concatenate.

  predicate RendersAll(render: Renderer, template: string, events: seq<GroupEvent>) {
    forall i | 0 <= i < |events| :: render(template, ContextOf(events[i])).Rendered?
  }

  /** The sub-menu texts of the events, in order. */
  function SubMenus(render: Renderer, template: string, events: seq<GroupEvent>): (r: seq<string>)
    requires RendersAll(render, template, events)
    ensures |r| == |events|
  {
    seq(|events|, i requires 0 <= i < |events| => render(template, ContextOf(events[i])).text)
  }

  function Concat(parts: seq<string>): string {
    if parts == [] then "" else parts[0] + Concat(parts[1..])
  }

  lemma {:induction false} ConcatSnoc(parts: seq<string>, x: string)
    ensures Concat(parts + [x]) == Concat(parts) + x
  {
    if parts == [] {
      assert [] + [x] == [x];
      assert [x][1..] == [];
    } else {
      assert (parts + [x])[1..] == parts[1..] + [x];
      ConcatSnoc(parts[1..], x);
    }
  }

  /** The menus succeed exactly when every event renders, and are then the
      in-order concatenation of the sub-menus. */
  lemma MenusAreConcatenation(render: Renderer, template: string, events: seq<GroupEvent>)
    ensures MenusOf(render, template, events).Ok? <==> RendersAll(render, template, events)
    ensures RendersAll(render, template, events) ==>
      MenusOf(render, template, events) == Ok(Concat(SubMenus(render, template, events)))
  {
    MenusOkIffRendersAll(render, template, events);
    if RendersAll(render, template, events) {
      MenusConcatenate(render, template, events);
    }
  }

  lemma {:induction false} MenusOkIffRendersAll(render: Renderer, template: string, events: seq<GroupEvent>)
    ensures MenusOf(render, template, events).Ok? <==> RendersAll(render, template, events)
  {
    if events != [] {
      var init, last := events[..|events| - 1], events[|events| - 1];
      MenusOkIffRendersAll(render, template, init);
      assert forall i | 0 <= i < |init| :: init[i] == events[i];
      assert RendersAll(render, template, events) <==>
        RendersAll(render, template, init) && render(template, ContextOf(last)).Rendered?;
    }
  }

  lemma {:induction false} MenusConcatenate(render: Renderer, template: string, events: seq<GroupEvent>)
    requires RendersAll(render, template, events)
    ensures MenusOf(render, template, events) == Ok(Concat(SubMenus(render, template, events)))
  {
    if events != [] {
      var init, last := events[..|events| - 1], events[|events| - 1];
      assert forall i | 0 <= i < |init| :: init[i] == events[i];
      assert RendersAll(render, template, init);
      MenusConcatenate(render, template, init);
      var text := render(template, ContextOf(last)).text;
      assert SubMenus(render, template, events) == SubMenus(render, template, init) + [text];
      ConcatSnoc(SubMenus(render, template, init), text);
    }
  }

  /** A failure aborts with the message of the first event that fails. */
  lemma {:induction false} MenusStopAtFirstFailure(render: Renderer, template: string,
                                                   events: seq<GroupEvent>, k: nat)
    requires k < |events| && render(template, ContextOf(events[k])).RenderFailed?
    requires forall i | 0 <= i < k :: render(template, ContextOf(events[i])).Rendered?
    ensures MenusOf(render, template, events)
      == Err(TemplateError(render(template, ContextOf(events[k])).message))
  {
    var init := events[..|events| - 1];
    if k == |events| - 1 {
      assert forall i | 0 <= i < |init| :: init[i] == events[i];
      MenusAreConcatenation(render, template, init);
    } else {
      assert init[k] == events[k];
      assert forall i | 0 <= i < k :: init[i] == events[i];
      MenusStopAtFirstFailure(render, template, init, k);
    }
  }

  /** Lines 106-132 of `main` without the file system: split the team events,
      render both groups and the league events, then render the top-level
      menu from the three blocks. */
  function PipelineOf(render: Renderer, teamEvents: seq<GroupEvent>, leagueEvents: seq<GroupEvent>)
    : Result<string>
  {
    match SplitTeamEvents(teamEvents)
    case Err(e) => Err(e)
    case Ok((g1, g2)) =>
      match MenusOf(render, TeamEventTemplate, g1)
      case Err(e) => Err(e)
      case Ok(groupOne) =>
        match MenusOf(render, TeamEventTemplate, g2)
        case Err(e) => Err(e)
        case Ok(groupTwo) =>
          match MenusOf(render, LeagueEventTemplate, leagueEvents)
          case Err(e) => Err(e)
          case Ok(leagueMenus) =>
            match render(TopLevelMenuTemplate, TopLevelContext(groupOne, groupTwo, leagueMenus))
            case RenderFailed(message) => Err(TemplateError(message))
            case Rendered(document) => Ok(document)
  }

  method Run(render: Renderer, teamEvents: seq<GroupEvent>, leagueEvents: seq<GroupEvent>)
    returns (r: Result<string>)
    ensures r == PipelineOf(render, teamEvents, leagueEvents)
  {
    var split := SplitTeamEvents(teamEvents);
    if split.Err? {
      return Err(split.error);
    }
    var (g1, g2) := split.value;
    var groupOne := GenerateMenus(render, TeamEventTemplate, g1);
    if groupOne.Err? {
      return groupOne;
    }
    var groupTwo := GenerateMenus(render, TeamEventTemplate, g2);
    if groupTwo.Err? {
      return groupTwo;
    }
    var leagueMenus := GenerateMenus(render, LeagueEventTemplate, leagueEvents);
    if leagueMenus.Err? {
      return leagueMenus;
    }
    var context := TopLevelContext(groupOne.value, groupTwo.value, leagueMenus.value);
    match render(TopLevelMenuTemplate, context)
    case RenderFailed(message) => return Err(TemplateError(message));
    case Rendered(document) => return Ok(document);
  }

  /** A league event among the team events aborts the run before anything is
      rendered. */
  lemma PipelineRejectsLeagueAmongTeams(render: Renderer, teamEvents: seq<GroupEvent>,
                                        leagueEvents: seq<GroupEvent>, k: nat)
    requires k < |teamEvents| && teamEvents[k].LeagueEvent?
    ensures PipelineOf(render, teamEvents, leagueEvents) == Err(NotATeamEvent)
  {
    assert teamEvents[k] in teamEvents;
  }

  /** When every template renders, the document is the top-level template
      rendered with the low-level team menus, the high-level team menus and
      the league menus, each the in-order concatenation of its sub-menus. */
  lemma PipelineDocument(render: Renderer, teamEvents: seq<GroupEvent>, leagueEvents: seq<GroupEvent>)
    requires forall e | e in teamEvents :: e.TeamEvent?
    requires RendersAll(render, TeamEventTemplate, teamEvents)
    requires RendersAll(render, LeagueEventTemplate, leagueEvents)
    ensures var low, high := Below(teamEvents, LevelThreshold), AtOrAbove(teamEvents, LevelThreshold);
      && RendersAll(render, TeamEventTemplate, low)
      && RendersAll(render, TeamEventTemplate, high)
      && var context := TopLevelContext(Concat(SubMenus(render, TeamEventTemplate, low)),
                                         Concat(SubMenus(render, TeamEventTemplate, high)),
                                         Concat(SubMenus(render, LeagueEventTemplate, leagueEvents)));
         PipelineOf(render, teamEvents, leagueEvents) ==
           match render(TopLevelMenuTemplate, context)
           case RenderFailed(message) => Err(TemplateError(message))
           case Rendered(document) => Ok(document)
  {
    var low, high := Below(teamEvents, LevelThreshold), AtOrAbove(teamEvents, LevelThreshold);
    assert forall i | 0 <= i < |teamEvents| :: teamEvents[i] in teamEvents;
    assert RendersAll(render, TeamEventTemplate, low) by {
      forall i | 0 <= i < |low| ensures render(TeamEventTemplate, ContextOf(low[i])).Rendered? {
        assert low[i] in low;
        RendersMember(render, TeamEventTemplate, teamEvents, low[i]);
      }
    }
    assert RendersAll(render, TeamEventTemplate, high) by {
      forall i | 0 <= i < |high| ensures render(TeamEventTemplate, ContextOf(high[i])).Rendered? {
        assert high[i] in high;
        RendersMember(render, TeamEventTemplate, teamEvents, high[i]);
      }
    }
    MenusAreConcatenation(render, TeamEventTemplate, low);
    MenusAreConcatenation(render, TeamEventTemplate, high);
    MenusAreConcatenation(render, LeagueEventTemplate, leagueEvents);
  }

  lemma RendersMember(render: Renderer, template: string, events: seq<GroupEvent>, e: GroupEvent)
    requires RendersAll(render, template, events) && e in events
    ensures render(template, ContextOf(e)).Rendered?
  {
    var i :| 0 <= i < |events| && events[i] == e;
  }
}
