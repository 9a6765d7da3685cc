/**
 * The portal's top-level controller: a static game catalog, a registry from
 * game id to mini-game widget, and three screens (home, instructions,
 * playing) switched by `currentView` together with `selectedGame`.
 */
module Navigation {
  import opened Options

  datatype View = Home | Instructions | Playing

  /** An entry of the static catalog. */
  datatype GameDescriptor = GameDescriptor(
    id: string, title: string, tagline: string, description: string, colors: seq<string>)

  /** The mini-game widgets that can be registered. */
  datatype Widget = NeonRecallWidget

  /** What the controller draws. */
  datatype Screen =
    | HomeScreen(games: seq<GameDescriptor>)
    | InstructionsScreen(game: GameDescriptor)
    | GameScreen(widget: Widget)
    | NotFoundScreen

  /**
   * The outcome of one optional platform call (fullscreen, orientation lock):
   * not offered by the platform, carried out, or rejected with an exception.
   */
  datatype Capability = Absent | Granted | Refused

  /** Which platform calls a transition made, and whether it logged a warning. */
  datatype Effects = Effects(firstCalled: bool, secondCalled: bool, warned: bool)

  /** `GAME_COMPONENTS`: catalog id to widget. */
  const GameComponents: map<string, Widget> := map["neon-recall" := NeonRecallWidget]

  /** The `games` catalog. */
  const Games: seq<GameDescriptor> := [
    GameDescriptor(
      "neon-recall", "Neon Recall", "Memory Sequence",
      "Watch the light sequence on the physical board and repeat it using your phone. The sequences get longer every round!",
      ["bg-yellow-400", "bg-green-500", "bg-pink-500", "bg-blue-500"])
  ]

  /** Every catalog id has a registered widget. */
  lemma CatalogRegistered()
    ensures forall g :: g in Games ==> g.id in GameComponents
  {
  }

  /**
   * Two guarded platform calls inside one `try`: the second is made only when
   * the first did not throw, and the `catch` logs a warning when either threw.
   */
  function Guarded(first: Capability, second: Capability): (e: Effects)
    ensures e.firstCalled <==> first != Absent
    ensures e.secondCalled <==> first != Refused && second != Absent
    ensures e.warned <==> first == Refused || (e.secondCalled && second == Refused)
  {
    if first == Refused then Effects(true, false, true)
    else Effects(first == Granted, second != Absent, second == Refused)
  }

  /** `renderGameplay`: the registered widget, or the "Game Not Found" fallback. */
  function RenderGameplay(selected: Option<GameDescriptor>): (s: Screen)
    ensures s.NotFoundScreen? || s.GameScreen?
    ensures s.GameScreen? <==> selected.Some? && selected.value.id in GameComponents
    ensures s.GameScreen? ==> s.widget == GameComponents[selected.value.id]
  {
    if selected.Some? && selected.value.id in GameComponents then
      GameScreen(GameComponents[selected.value.id])
    else NotFoundScreen
  }

  /** For a game from the catalog the fallback is never drawn. */
  lemma CatalogGameFound(g: GameDescriptor)
    requires g in Games
    ensures RenderGameplay(Some(g)) == GameScreen(GameComponents[g.id])
  {
  }

  /** The three `currentView === …` guards, in order; each draws one screen. */
  function Render(view: View, selected: Option<GameDescriptor>): (screens: seq<Screen>)
    requires view == Instructions ==> selected.Some?
    ensures |screens| == 1
    ensures screens[0].HomeScreen? <==> view == Home
    ensures view == Home ==> screens[0] == HomeScreen(Games)
    ensures screens[0].InstructionsScreen? <==> view == Instructions
    ensures screens[0].InstructionsScreen? ==> screens[0].game == selected.value
    ensures view == Playing ==> screens[0] == RenderGameplay(selected)
  {
    (if view == Home then [HomeScreen(Games)] else [])
    + (if view == Instructions then [InstructionsScreen(selected.value)] else [])
    + (if view == Playing then [RenderGameplay(selected)] else [])
  }

  class App {
    var currentView: View
    var selectedGame: Option<GameDescriptor>

    /** Away from home a catalog game is always selected; the converse does not hold. */
    ghost predicate Valid()
      reads this
    {
      && (currentView != Home ==> selectedGame.Some?)
      && (selectedGame.Some? ==> selectedGame.value in Games)
    }

    constructor ()
      ensures Valid()
      ensures currentView == Home && selectedGame == None
    {
      currentView := Home;
      selectedGame := None;
    }

    /** The home screen's button for catalog entry `game`. */
    method SelectGame(game: GameDescriptor)
      requires Valid() && game in Games
      modifies this
      ensures Valid()
      ensures currentView == Instructions && selectedGame == Some(game)
    {
      selectedGame := Some(game);
      currentView := Instructions;
    }

    /** The instructions screen's close button: back home, selection kept. */
    method Back()
      requires Valid()
      modifies this
      ensures Valid()
      ensures currentView == Home && selectedGame == old(selectedGame)
    {
      currentView := Home;
    }

    /**
     * `enterGameMode`, run from the instructions screen's start button: ends in
     * `playing` whatever the fullscreen request and orientation lock do.
     */
    method EnterGameMode(fullscreen: Capability, orientation: Capability) returns (effects: Effects)
      requires Valid() && currentView == Instructions
      modifies this
      ensures Valid()
      ensures currentView == Playing && selectedGame == old(selectedGame)
      ensures effects == Guarded(fullscreen, orientation)
    {
      effects := Guarded(fullscreen, orientation);
      currentView := Playing;
    }

    /**
     * `exitGameMode`: back to `home` with no selection, whatever the orientation
     * unlock and the fullscreen exit do.
     */
    method ExitGameMode(unlock: Capability, exitFullscreen: Capability) returns (effects: Effects)
      requires Valid()
      modifies this
      ensures Valid()
      ensures currentView == Home && selectedGame == None
      ensures effects == Guarded(unlock, exitFullscreen)
    {
      effects := Guarded(unlock, exitFullscreen);
      currentView := Home;
      selectedGame := None;
    }

    /** What the controller draws: one screen, never the fallback. */
    function Screens(): (screens: seq<Screen>)
      reads this
      requires Valid()
      ensures |screens| == 1
      ensures screens[0] != NotFoundScreen
      ensures currentView == Playing ==> screens[0] == GameScreen(GameComponents[selectedGame.value.id])
    {
      if selectedGame.Some? then CatalogGameFound(selectedGame.value); Render(currentView, selectedGame)
      else Render(currentView, selectedGame)
    }
  }

  /** Home, a game chosen, closed again, chosen again, played and left. */
  method Walkthrough(fullscreen: Capability, orientation: Capability) {
    var app := new App();
    var game := Games[0];
    app.SelectGame(game);
    assert app.Screens() == [InstructionsScreen(game)];
    app.Back();
    assert app.currentView == Home && app.selectedGame == Some(game);
    app.SelectGame(game);
    var entered := app.EnterGameMode(fullscreen, orientation);
    assert app.Screens() == [GameScreen(NeonRecallWidget)];
    var exited := app.ExitGameMode(Granted, Refused);
    assert exited.warned;
    assert app.Screens() == [HomeScreen(Games)];
  }
}
