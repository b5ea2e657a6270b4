/**
 * The MainBoard's table of registered tags and the check-in step: `find_card` looks the
 * scanned ID up in `cards`, `get_card_id` points at a stored ID, and `probe_card_reader`
 * flips the matched dog between adopted and surrendered and reports the change upstream.
 */
module CardRegistry {
  import opened Bytes
  import opened RfidFrame
  import opened HttpUpload

  const REGISTERED_TAGS: nat := 3
  /** `CREADER_INDEX`: the index `get_card_id` reads as "the card reader's buffer". */
  const CREADER_INDEX: int := -1

  datatype Status = Adopted | Surrendered

  /** One entry of `cards`: a `SIZE + 1`-byte tag (NUL, ten ID bytes, NUL, NUL) and a status. */
  datatype Card = Card(tag: seq<Byte>, status: Status)

  /** The compile-time tags of `cards`, in table order. */
  const RegisteredTags: seq<seq<Byte>> := [
    [NUL] + "2C00AC693E" + [NUL, NUL],
    [NUL] + "310037D93D" + [NUL, NUL],
    [NUL] + "TF005CAD60" + [NUL, NUL]
  ]

  /** The action code reported for a new status: 'a' adopted, 's' surrendered. */
  function ActionCode(s: Status): Byte
  {
    match s
    case Adopted => 'a'
    case Surrendered => 's'
  }

  function Toggled(s: Status): (t: Status)
    ensures t != s
  {
    match s
    case Adopted => Surrendered
    case Surrendered => Adopted
  }

  /** A status has two values, so toggling twice restores it. */
  lemma ToggleTwice(s: Status)
    ensures Toggled(Toggled(s)) == s
  {
  }

  /** A table entry's tag is a C string at offset 1. */
  predicate TagShape(tag: seq<Byte>)
  {
    |tag| == SIZE + 1 && NUL in tag[1..]
  }

  /** `strcmp(card.tag + 1, id + 1) == 0`. */
  predicate Matches(card: Card, id: seq<Byte>)
    requires TagShape(card.tag) && TagShape(id)
  {
    CStr(card.tag[1..]) == CStr(id[1..])
  }

  predicate TableShape(cards: seq<Card>)
  {
    forall i :: 0 <= i < |cards| ==> TagShape(cards[i].tag)
  }

  /**
   * Every registered tag is a NUL, ten NUL-free ID bytes, and two NULs, so its C string at
   * offset 1 is exactly its ten ID bytes.
   */
  lemma RegisteredTagsShape(i: nat)
    requires i < REGISTERED_TAGS
    ensures TagShape(RegisteredTags[i])
    ensures CStr(RegisteredTags[i][1..]) == RegisteredTags[i][1..SIZE - 1]
    ensures |RegisteredTags[i][1..SIZE - 1]| == DATA_LEN
  {
    var tag := RegisteredTags[i];
    assert tag[1..] == tag[1..SIZE - 1] + [NUL] + [NUL];
    CStrOfTerminated(tag[1..SIZE - 1], [NUL]);
  }

  /** The ten ID characters of every registered tag are digits or capital letters. */
  lemma RegisteredIdsAlphanumeric(i: nat)
    requires i < REGISTERED_TAGS
    ensures forall k :: 1 <= k < SIZE - 1 ==>
      '0' <= RegisteredTags[i][k] <= '9' || 'A' <= RegisteredTags[i][k] <= 'Z'
  {
  }

  /**
   * Every upload a check-in makes, for any registered tag and either action, sends the 34 bytes
   * `AT+CIPSEND=34` announces, and they form the Request-Line of
   * `GET /add/<id>/<action> HTTP/1.0` with an abs_path URI, followed by an empty line.
   */
  lemma CheckInUploadIsRequest(i: nat, s: Status)
    requires i < REGISTERED_TAGS
    ensures var id, action := RegisteredTags[i][1..], ActionCode(s);
      && |Payload(id, action)| == 34
      && Payload(id, action) == RequestLine("GET", "/add/" + id[..ID_LEN] + "/" + [action], "HTTP/1.0") + [CR, LF]
      && AbsPath("/add/" + id[..ID_LEN] + "/" + [action])
  {
    var id, action := RegisteredTags[i][1..], ActionCode(s);
    RegisteredIdsAlphanumeric(i);
    assert PChar(action);
    forall k | 0 <= k < ID_LEN ensures PChar(id[k]) {
      assert id[k] == RegisteredTags[i][k + 1];
    }
    PayloadIsRequestLine(id, action);
    PCharsHaveNoNul(id, action);
    AnnouncedLengthMatches(id, action);
  }

  /** A table holding the registered tags in order has the shape the search needs. */
  lemma RegisteredTableShape(cards: seq<Card>)
    requires |cards| == REGISTERED_TAGS
    requires forall i :: 0 <= i < REGISTERED_TAGS ==> cards[i].tag == RegisteredTags[i]
    ensures TableShape(cards)
  {
    forall i | 0 <= i < REGISTERED_TAGS ensures TagShape(cards[i].tag) {
      RegisteredTagsShape(i);
    }
  }

  /** The answer `find_card` gives: the first entry at or after `from` whose tag matches `id`, or -1. */
  function FirstMatch(cards: seq<Card>, id: seq<Byte>, from: nat): (r: int)
    requires TableShape(cards) && TagShape(id) && from <= |cards|
    ensures -1 <= r < |cards|
    ensures r == -1 <==> forall j :: from <= j < |cards| ==> !Matches(cards[j], id)
    ensures r >= 0 ==> from <= r && Matches(cards[r], id) &&
                       forall j :: from <= j < r ==> !Matches(cards[j], id)
    decreases |cards| - from
  {
    if from == |cards| then -1
    else if Matches(cards[from], id) then from
    else FirstMatch(cards, id, from + 1)
  }

  /** Only the tags take part in the search: statuses do not change its answer. */
  lemma {:induction false} FirstMatchIgnoresStatus(cards: seq<Card>, other: seq<Card>, id: seq<Byte>, from: nat)
    requires TableShape(cards) && TagShape(id) && from <= |cards|
    requires |other| == |cards| && forall i :: 0 <= i < |cards| ==> other[i].tag == cards[i].tag
    ensures TableShape(other) && FirstMatch(other, id, from) == FirstMatch(cards, id, from)
    decreases |cards| - from
  {
    assert TableShape(other);
    if from < |cards| {
      FirstMatchIgnoresStatus(cards, other, id, from + 1);
    }
  }

  /** What `probe_card_reader` leaves behind: the table, the reader's lock, and the outcome. */
  datatype Probe =
    | Idle                                        // no frame waiting: nothing happens
    | Unregistered                                // the scanned tag is not in the table
    | Checked(card: nat, action: Byte, sent: seq<Byte>)  // status flipped and reported

  datatype ProbeResult = ProbeResult(cards: seq<Card>, done: bool, outcome: Probe)

  /** `probe_card_reader` on values: the table and reader state before, everything after. */
  function ProbeStep(cards: seq<Card>, f: Frame): ProbeResult
    requires TableShape(cards) && WellFormed(f)
  {
    if !f.done then ProbeResult(cards, f.done, Idle)
    else
      var i := FirstMatch(cards, f.id, 0);
      if i < 0 then ProbeResult(cards, false, Unregistered)
      else
        var status := Toggled(cards[i].status);
        ProbeResult(cards[i := cards[i].(status := status)], false,
                    Checked(i, ActionCode(status), Upload(cards[i].tag[1..], ActionCode(status))))
  }

  /** With no frame waiting, the probe changes nothing. */
  lemma ProbeIdle(cards: seq<Card>, f: Frame)
    requires TableShape(cards) && WellFormed(f) && !f.done
    ensures ProbeStep(cards, f) == ProbeResult(cards, false, Idle)
  {
  }

  /** An unregistered tag leaves every table entry as it was and releases the reader. */
  lemma ProbeMiss(cards: seq<Card>, f: Frame)
    requires TableShape(cards) && WellFormed(f) && f.done
    requires forall j :: 0 <= j < |cards| ==> !Matches(cards[j], f.id)
    ensures ProbeStep(cards, f) == ProbeResult(cards, false, Unregistered)
  {
  }

  /**
   * A registered tag flips the status of the first matching entry and of no other, reports
   * 'a' exactly when the new status is adopted and 's' exactly when it is surrendered, and
   * uploads that entry's ID with the action.
   */
  lemma ProbeHit(cards: seq<Card>, f: Frame, i: nat)
    requires TableShape(cards) && WellFormed(f) && f.done
    requires i < |cards| && Matches(cards[i], f.id)
    requires forall j :: 0 <= j < i ==> !Matches(cards[j], f.id)
    ensures var r := ProbeStep(cards, f);
      && |r.cards| == |cards| && !r.done && r.outcome.Checked? && r.outcome.card == i
      && r.cards[i].tag == cards[i].tag && r.cards[i].status != cards[i].status
      && (forall j :: 0 <= j < |cards| && j != i ==> r.cards[j] == cards[j])
      && (r.outcome.action == 'a' <==> r.cards[i].status == Adopted)
      && (r.outcome.action == 's' <==> r.cards[i].status == Surrendered)
      && r.outcome.sent == Upload(cards[i].tag[1..], r.outcome.action)
  {
  }

  /** Scanning the same tag twice restores the table. */
  lemma ProbeTwiceRestores(cards: seq<Card>, f: Frame)
    requires TableShape(cards) && WellFormed(f) && f.done
    ensures var once := ProbeStep(cards, f).cards;
      TableShape(once) && ProbeStep(once, f).cards == cards
  {
    var i := FirstMatch(cards, f.id, 0);
    if i >= 0 {
      var once := cards[i := cards[i].(status := Toggled(cards[i].status))];
      FirstMatchIgnoresStatus(cards, once, f.id, 0);
      ToggledTwiceAt(cards, i);
    }
  }

  /** Flipping the status of the same entry twice gives the table back. */
  lemma ToggledTwiceAt(cards: seq<Card>, i: nat)
    requires i < |cards|
    ensures var once := cards[i := cards[i].(status := Toggled(cards[i].status))];
      once[i := once[i].(status := Toggled(once[i].status))] == cards
  {
    ToggleTwice(cards[i].status);
  }

  /** The `cards` array: the tags are fixed, the statuses change on each check-in. */
  class CardTable {
    const cards: array<Card>

    ghost predicate Valid()
      reads this, cards
    {
      cards.Length == REGISTERED_TAGS &&
      forall i :: 0 <= i < REGISTERED_TAGS ==> cards[i].tag == RegisteredTags[i]
    }

    /** The static initialiser: every registered dog starts out surrendered. */
    constructor ()
      ensures Valid() && fresh(cards)
      ensures forall i :: 0 <= i < REGISTERED_TAGS ==> cards[i].status == Surrendered
    {
      cards := new Card[REGISTERED_TAGS](i requires 0 <= i < REGISTERED_TAGS =>
        Card(RegisteredTags[i], Surrendered));
    }

    /** `find_card`: linear search for the scanned ID; reads both buffers and changes nothing. */
    method FindCard(rf: RfidReceiver) returns (r: int)
      requires TableShape(cards[..]) && rf.Valid()
      ensures r == FirstMatch(cards[..], rf.id[..], 0)
    {
      assert rf.id[..][1..][SIZE - 1] == NUL;
      var i := 0;
      while i < cards.Length
        invariant 0 <= i <= cards.Length
        invariant forall j :: 0 <= j < i ==> !Matches(cards[..][j], rf.id[..])
      {
        if CStr(cards[i].tag[1..]) == CStr(rf.id[1..]) {
          return i;
        }
        i := i + 1;
      }
      return -1;
    }

    /**
     * `get_card_id`: the ID stored at offset 1 of the reader's buffer (`CREADER_INDEX`) or
     * of a table entry.
     */
    function CardId(rf: RfidReceiver, index: int): (r: seq<Byte>)
      requires Valid() && rf.Valid()
      requires index == CREADER_INDEX || 0 <= index < REGISTERED_TAGS
      reads this, cards, rf, rf.id
      ensures |r| == SIZE && NUL in r
      ensures index == CREADER_INDEX ==> r == rf.id[1..]
      ensures 0 <= index ==> r == cards[index].tag[1..]
      ensures 0 <= index ==> CStr(r) == RegisteredTags[index][1..SIZE - 1] && |CStr(r)| == DATA_LEN
      ensures index == CREADER_INDEX && rf.done ==> r[DATA_LEN] == NUL
    {
      if index == CREADER_INDEX then rf.id[1..]
      else
        RegisteredTagsShape(index);
        cards[index].tag[1..]
    }
  }

  /**
   * `probe_card_reader`, less its LCD output: with a frame waiting, look the tag up; on a
   * miss release the reader; on a hit release it, flip the entry's status and upload the
   * entry's ID with the action code.
   */
  method ProbeCardReader(rf: RfidReceiver, table: CardTable) returns (outcome: Probe)
    requires rf.Valid() && table.Valid()
    modifies rf`done, table.cards
    ensures rf.Valid() && table.Valid()
    ensures rf.id[..] == old(rf.id[..]) && rf.index == old(rf.index)
    ensures TableShape(old(table.cards[..]))
    ensures ProbeResult(table.cards[..], rf.done, outcome) == ProbeStep(old(table.cards[..]), old(rf.State()))
  {
    ghost var before := table.cards[..];
    RegisteredTableShape(before);
    if !rf.done {
      return Idle;
    }
    var i := table.FindCard(rf);
    if i < 0 {
      rf.Ready();
      return Unregistered;
    }
    rf.Ready();
    var status := Toggled(table.cards[i].status);
    var action := ActionCode(status);
    table.cards[i] := table.cards[i].(status := status);
    assert table.cards[..] == before[i := before[i].(status := status)];
    var sent := UploadToServer(table.CardId(rf, i), action);
    rf.Ready();
    outcome := Checked(i, action, sent);
  }
}
