/**
 * The matchmaking step of src/main.rs (`wait_for_players`): once the socket
 * knows enough players, a peer-to-peer session is configured with one
 * handle per player, numbered in the order the socket lists them, and the
 * game moves from matchmaking to play.
 */
module Matchmaking {
  import opened Wrappers

  datatype GameState = Matchmaking | InGame

  /** A participant as the socket reports it: this peer, or a remote one. */
  datatype PlayerType = Local | Remote(peer: nat)

  /**
   * The socket as the step sees it: whether its game channel can still be
   * taken, and the players it currently knows (after `update_peers`).
   */
  datatype Socket = Socket(channelAvailable: bool, players: seq<PlayerType>)

  /** A player registered with the session builder under a handle. */
  datatype Assignment = Assignment(player: PlayerType, handle: nat)

  /** What the session builder is given before the session starts. */
  datatype SessionSetup = SessionSetup(numPlayers: nat, inputDelay: nat, desyncInterval: nat, players: seq<Assignment>)

  const NUM_PLAYERS: nat := 2
  const INPUT_DELAY: nat := 2
  const DESYNC_INTERVAL: nat := 1

  /** The outcome of one run of the step. */
  datatype Waited = Waited(state: GameState, socket: Socket, session: Option<SessionSetup>)

  /**
   * The `enumerate` loop that registers players: the i-th player listed gets
   * handle i, so the handles are distinct and are exactly 0..n-1.
   */
  method AssignHandles(players: seq<PlayerType>) returns (roster: seq<Assignment>)
    ensures |roster| == |players|
    ensures forall i :: 0 <= i < |roster| ==> roster[i].player == players[i] && roster[i].handle == i
    ensures forall i, j :: 0 <= i < j < |roster| ==> roster[i].handle != roster[j].handle
  {
    roster := [];
    var i := 0;
    while i < |players|
      invariant i <= |players|
      invariant |roster| == i
      invariant forall k :: 0 <= k < i ==> roster[k] == Assignment(players[k], k)
    {
      roster := roster + [Assignment(players[i], i)];
      i := i + 1;
    }
  }

  /**
   * `wait_for_players`, which runs only while matchmaking. Without the
   * channel, or with fewer than two players, nothing changes. Otherwise a
   * two-player session with input delay 2 and a desync check every frame is
   * set up with every listed player, the channel is handed to the session,
   * and the game state becomes `InGame`.
   */
  method WaitForPlayers(socket: Socket) returns (r: Waited)
    ensures r.state == InGame <==> r.session.Some?
    ensures r.session.Some? <==> socket.channelAvailable && |socket.players| >= NUM_PLAYERS
    ensures r.session.None? ==> r == Waited(Matchmaking, socket, None)
    ensures r.session.Some? ==>
      var setup := r.session.value;
      && setup.numPlayers == 2 && setup.inputDelay == 2 && setup.desyncInterval == 1
      && |setup.players| == |socket.players|
      && (forall i :: 0 <= i < |setup.players| ==> setup.players[i] == Assignment(socket.players[i], i))
      && r.socket == socket.(channelAvailable := false)
  {
    if !socket.channelAvailable {
      return Waited(Matchmaking, socket, None);
    }
    if |socket.players| < NUM_PLAYERS {
      return Waited(Matchmaking, socket, None);
    }
    var roster := AssignHandles(socket.players);
    var setup := SessionSetup(NUM_PLAYERS, INPUT_DELAY, DESYNC_INTERVAL, roster);
    r := Waited(InGame, socket.(channelAvailable := false), Some(setup));
  }
}
