/**
 A card that loses a single command, a read of the key containers, and on which the key pair of that
 container is not found for as long as the program runs.
 */
module Loss {
  import opened Bytes
  import opened Cards
  import opened Channels
  import opened Chunks
  import opened Directory
  import opened Fcp
  import opened KeyIndex
  import opened Listings
  import opened SEInterfaces
  import MIASs

  /** One container record, and no directory. */
  function OneContainer(r: seq<byte>): Files {
    map[CONTAINERS := File([TEMPLATE, 0x04, SIZE_WITH_INFO, 0x02, 0x00, 0x0B], r, |r|)]
  }

  /** Every command arrives, is accepted and answered 9000, except the fourth: the first read of a container. */
  function LosesOne(fs: Files): Card {
    Card(map[MIASs.AID := fs], map[], t => Choice(t == 3, false, true, 1, 0, [], _ => [0x90, 0x00]), 0, [])
  }

  /** The card says that there is a key pair. */
  lemma CardHasKey(r: seq<byte>)
    requires |r| == CONTAINER_RECORD && Usable(r, 1, 0)
    ensures var fs := OneContainer(r);
            && SaneIndex(fs) && Announces(fs[CONTAINERS]) && TotalSize(fs[CONTAINERS].fcp[2..], 0) == CONTAINER_RECORD
            && Index(fs).Some? && Lookup(Index(fs).value, 0).Some?
  {
    var fs := OneContainer(r);
    var b := fs[CONTAINERS].fcp[2..];
    assert b == [SIZE_WITH_INFO, 0x02, 0x00, 0x0B] && b[4..] == [];
    assert Tlvs(b[4..]) && WordSizes(b[4..]) && TotalSize(b[4..], 0x0B) == 0x0B;
    assert b[1] == 2 && Tlvs(b) && WordSizes(b);
    FifteenContainers(r, 1);
    assert Containers(fs) == 1;
    IndexTellsTheCard(fs, 0);
  }

  /** Selecting MIAS on this card takes its first two commands. */
  lemma Selects(fs: Files, v: View)
    requires !v.selected && v.aid == MIASs.AID
    ensures var s := Selected(LosesOne(fs), v);
            s.ok && s.view == v.(channel := 1, selected := true) && InSession(s.card, fs)
  {
    var c := LosesOne(fs);
    var offered := Send(c, OPEN);
    assert offered.answer == Some([0x01, 0x90, 0x00]);
    var apdu := SelectByName(1, MIASs.AID);
    RoutedClass(0x00, 1);
    assert Body(apdu) == MIASs.AID;
    var named := Send(offered.card, apdu);
    assert named.answer == Some([0x90, 0x00]);
  }

  /** The card in the session, before its third command. */
  ghost predicate InSession(c: Card, fs: Files) {
    && c.env == LosesOne(fs).env && c.apps == map[MIASs.AID := fs] && c.tick == 2 && |c.received| == 2
    && c.open == map[1 := Session(MIASs.AID, None)]
  }

  /** That command selects the containers' file. */
  lemma SelectsContainers(c: Card, r: seq<byte>)
    requires |r| == CONTAINER_RECORD && InSession(c, OneContainer(r))
    ensures var s := Send(c, PathCommand(1, CONTAINERS, Some(0x15)));
            && s.answer == Some(OneContainer(r)[CONTAINERS].fcp + [0x90, 0x00])
            && s.card.env == c.env && s.card.tick == 3 && |s.card.received| == 3
  {
    var fs, apdu := OneContainer(r), PathCommand(1, CONTAINERS, Some(0x15));
    assert apdu[5..7] == CONTAINERS;
    assert c.FilesOn(1) == fs;
    assert !c.Now().drop;
  }

  /** The read of its record is then lost. */
  lemma ListsNothing(c: Card, r: seq<byte>)
    requires |r| == CONTAINER_RECORD && Usable(r, 1, 0) && InSession(c, OneContainer(r))
    ensures var fs, s := OneContainer(r), Send(c, PathCommand(1, CONTAINERS, Some(0x15)));
            && Lists(c, 1, fs) && PoolRead(s.card, 1, CONTAINER_RECORD, 0, []).pool == []
            && PoolRead(s.card, 1, CONTAINER_RECORD, 0, []).card.Losses() == 1
  {
    hide Send, PoolRead, Usable, Index, SaneIndex, TotalSize, PathCommand;
    CardHasKey(r);
    SelectsContainers(c, r);
    var s := Send(c, PathCommand(1, CONTAINERS, Some(0x15)));
    assert s.card.Now().drop;
    LostRecord(s.card, 1, CONTAINER_RECORD);
  }

  /**
   A program on this card. The one read is lost and the listing carries on; the container's key pair is
   not found, nor is it later, although no more commands are lost and the card would say that it exists.
   */
  method WrongForGood(r: seq<byte>) returns (mias: MIASs.MIAS, found: bool, again: bool)
    requires |r| == CONTAINER_RECORD && Usable(r, 1, 0)
    ensures SaneIndex(OneContainer(r)) && Index(OneContainer(r)).Some? && Lookup(Index(OneContainer(r)).value, 0).Some?
    ensures !found && !again && mias.Valid() && mias.keypairsNum == 0
    ensures mias.applet.seiface != null && mias.applet.Card().env == LosesOne(OneContainer(r)).env && 1 <= mias.applet.Losses()
  {
    hide Send, Selected, TotalSize, Index, SaneIndex, Usable, Lookup, Undisturbed, Steady;
    var fs := OneContainer(r);
    CardHasKey(r);
    var seiface := new SEInterface(LosesOne(fs));
    mias := new MIASs.MIAS();
    mias.applet.Init(seiface);
    Selects(fs, mias.applet.View());
    var selected := mias.applet.Select();
    found, again := LookTwice(mias, r);
  }

  method LookTwice(mias: MIASs.MIAS, r: seq<byte>) returns (found: bool, again: bool)
    requires |r| == CONTAINER_RECORD && Usable(r, 1, 0)
    requires mias.Valid() && mias.applet.Ready() && mias.keypairsNum == -1 && mias.applet.channel == 1
    requires InSession(mias.applet.Card(), OneContainer(r))
    modifies mias.applet.Device(), mias.keypairs, mias`keypairsNum
    ensures !found && !again && mias.Valid() && mias.keypairsNum == 0 && mias.applet.seiface == old(mias.applet.seiface)
    ensures mias.applet.Card().env == old(mias.applet.Card()).env && 1 <= mias.applet.Losses()
  {
    hide Send, PoolRead, TotalSize, Index, Usable, Steady, SaneIndex;
    ghost var c, fs := mias.applet.Card(), OneContainer(r);
    CardHasKey(r);
    ListsNothing(c, r);
    mias.applet.StartsFollowing();
    assert c.FilesOn(1) == fs;
    var kp;
    found, kp := mias.GetKeyPairByContainerId(0, c);
    again, kp := mias.GetKeyPairByContainerId(0, c);
  }
}
