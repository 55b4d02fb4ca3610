/** The denylist store: blocked public keys, temporary bans, blacklisted words
    and blocked IP addresses, each table keyed by its unique column. Every
    operation is a read-modify-write on its tables: one table, except
    `TempBanPubkey`, which writes the temp bans and then the reason of a
    blocked key. Errors are `Failure` values that leave the tables as they
    were, except the 404 that `TempBanPubkey` raises after committing the
    ban. Times are whole seconds since the Unix epoch. */
module Denylist {
  import opened Common

  /** A row of `blocked_pubkeys`, minus its surrogate id and timestamp; the
      hex key it is stored under is the table's unique `pubkey` column. */
  datatype BlockedPubkey = BlockedPubkey(npub: string, banReason: Option<string>)

  /** A public-key row as the operations return it. */
  datatype PubkeyRow = PubkeyRow(pubkey: string, npub: string, banReason: Option<string>)

  /** `"blocked"` or `"already_blocked"` in the answer of `AddBlockedPubkey`. */
  datatype BlockOutcome = Blocked | AlreadyBlocked

  datatype AddPubkeyReply = AddPubkeyReply(status: BlockOutcome, row: PubkeyRow)

  /** The answer of a status query: `"not_blocked"`, or `"blocked"` with the
      temporary ban's expiry when a temp-ban row exists. */
  datatype PubkeyStatus = NotBlocked | BlockedKey(tempBanExpiry: Option<int>)

  /** A row of `temp_bans`. */
  datatype TempBanRow = TempBanRow(pubkey: string, expiry: int)

  /** A row of `blocked_ips`. */
  datatype IpRow = IpRow(ip: string, banReason: Option<string>)

  /** Hours a temporary ban lasts when the request names no duration. */
  const DefaultBanHours: int := 24

  const SecondsPerHour: int := 3600

  /** The range of Python's `datetime`, from 0001-01-01 00:00:00 to
      9999-12-31 23:59:59, in seconds since 1970-01-01 00:00:00 UTC. */
  const DatetimeMin: int := -62135596800
  const DatetimeMax: int := 253402300799

  /** `utcnow() + timedelta(hours=durationHours)`, which raises OverflowError
      outside the range of `datetime`. */
  function BanExpiry(now: int, durationHours: int): (r: Option<int>)
    ensures r.Some? <==> DatetimeMin <= now + durationHours * SecondsPerHour <= DatetimeMax
    ensures r.Some? ==> r.value - now == durationHours * SecondsPerHour
  {
    var expiry := now + durationHours * SecondsPerHour;
    if DatetimeMin <= expiry <= DatetimeMax then Some(expiry) else None
  }

  const KeyNotFound := HttpError(404, "Public key not found")
  const WordExists := HttpError(400, "Word already blacklisted")
  const WordNotFound := HttpError(404, "Word not found")
  const IpExists := HttpError(400, "IP address already blocked")
  const IpNotFound := HttpError(404, "IP address not found")
  /** What the generic exception handler answers, e.g. when a commit breaks a
      unique column. */
  const Unexpected := HttpError(500, "An unexpected error occurred.")

  /** Python's truth value of a `str | None`: neither `None` nor empty. */
  predicate Truthy(s: Option<string>)
  {
    s.Some? && s.value != ""
  }

  /** `s.startswith("npub")`. */
  predicate IsNpub(s: string)
  {
    |s| >= 4 && s[..4] == "npub"
  }

  /** The canonical hex form of a key given either as hex or in npub form;
      `fromNpub` stands for the npub decoder of the nostr library. */
  function ToHex(fromNpub: string -> string, s: string): (hex: string)
  {
    if IsNpub(s) then fromNpub(s) else s
  }

  /** Every blocked key is the hex form of the input it was blocked under. */
  ghost predicate KeyedByHex(fromNpub: string -> string, pubkeys: map<string, BlockedPubkey>)
  {
    forall k :: k in pubkeys ==> ToHex(fromNpub, pubkeys[k].npub) == k
  }

  /** The unique `npub` column can never be violated: two rows with the same
      npub are the same row. */
  lemma NpubColumnUnique(fromNpub: string -> string, pubkeys: map<string, BlockedPubkey>, k1: string, k2: string)
    requires KeyedByHex(fromNpub, pubkeys)
    requires k1 in pubkeys && k2 in pubkeys
    requires pubkeys[k1].npub == pubkeys[k2].npub
    ensures k1 == k2
  {
    assert ToHex(fromNpub, pubkeys[k1].npub) == k1;
    assert ToHex(fromNpub, pubkeys[k2].npub) == k2;
  }

  /** The four tables of the database, as maps and sets keyed by their unique
      columns, together with the npub decoder. */
  class Store {
    const fromNpub: string -> string
    var pubkeys: map<string, BlockedPubkey>
    var tempBans: map<string, int>
    var words: set<string>
    var ips: map<string, Option<string>>

    ghost predicate Valid()
      reads this
    {
      KeyedByHex(fromNpub, pubkeys)
    }

    constructor (fromNpub: string -> string)
      ensures this.fromNpub == fromNpub
      ensures pubkeys == map[] && tempBans == map[] && words == {} && ips == map[]
      ensures Valid()
    {
      this.fromNpub := fromNpub;
      pubkeys, tempBans, words, ips := map[], map[], {}, map[];
    }

    /** `check_pubkey_status`: a key is reported blocked exactly when its hex
        form is in the blocked table, and then with the expiry of a temp-ban
        row under that hex form if there is one. A temp ban alone does not
        make a key blocked, and an expired one is still reported. */
    function CheckPubkeyStatus(pubkey: string): (s: PubkeyStatus)
      reads this
      ensures s == NotBlocked <==> ToHex(fromNpub, pubkey) !in pubkeys
      ensures s.BlockedKey? ==> s.tempBanExpiry.Some? == (ToHex(fromNpub, pubkey) in tempBans)
      ensures s.BlockedKey? && s.tempBanExpiry.Some? ==>
        s.tempBanExpiry.value == tempBans[ToHex(fromNpub, pubkey)]
    {
      var hex := ToHex(fromNpub, pubkey);
      if hex in pubkeys then
        if hex in tempBans then BlockedKey(Some(tempBans[hex])) else BlockedKey(None)
      else NotBlocked
    }

    /** `add_blocked_pubkey`: a new key is stored under its hex form with the
        raw input as npub; an existing one is left alone except that a missing
        reason is filled in. */
    method AddBlockedPubkey(pubkey: string, banReason: Option<string>) returns (r: AddPubkeyReply)
      requires Valid()
      modifies this`pubkeys
      ensures Valid()
      ensures var hex := ToHex(fromNpub, pubkey);
        hex !in old(pubkeys) ==>
          && r == AddPubkeyReply(Blocked, PubkeyRow(hex, pubkey, banReason))
          && pubkeys == old(pubkeys)[hex := BlockedPubkey(pubkey, banReason)]
      ensures var hex := ToHex(fromNpub, pubkey);
        hex in old(pubkeys) ==>
          var e := old(pubkeys)[hex];
          var reason := if !Truthy(e.banReason) && Truthy(banReason) then banReason else e.banReason;
          && r == AddPubkeyReply(AlreadyBlocked, PubkeyRow(hex, e.npub, reason))
          && pubkeys == old(pubkeys)[hex := e.(banReason := reason)]
      ensures var hex := ToHex(fromNpub, pubkey);
        hex in old(pubkeys) && Truthy(old(pubkeys)[hex].banReason) ==> pubkeys == old(pubkeys)
      ensures old(pubkeys).Keys <= pubkeys.Keys
      ensures CheckPubkeyStatus(pubkey).BlockedKey?
    {
      var hex := ToHex(fromNpub, pubkey);
      if hex in pubkeys {
        var existing := pubkeys[hex];
        if !Truthy(existing.banReason) && Truthy(banReason) {
          existing := existing.(banReason := banReason);
          pubkeys := pubkeys[hex := existing];
        }
        r := AddPubkeyReply(AlreadyBlocked, PubkeyRow(hex, existing.npub, existing.banReason));
        return;
      }
      pubkeys := pubkeys[hex := BlockedPubkey(pubkey, banReason)];
      r := AddPubkeyReply(Blocked, PubkeyRow(hex, pubkey, banReason));
    }

    /** `remove_blocked_pubkey`: deletes the row whose key equals the input
        exactly (no npub conversion); silently does nothing otherwise. */
    method RemoveBlockedPubkey(pubkey: string)
      requires Valid()
      modifies this`pubkeys
      ensures Valid()
      ensures pubkeys == old(pubkeys) - {pubkey}
      ensures !IsNpub(pubkey) ==> CheckPubkeyStatus(pubkey) == NotBlocked
    {
      if pubkey in pubkeys {
        pubkeys := pubkeys - {pubkey};
      }
    }

    /** `update_ban_reason`: sets the reason of the key's hex form, or fails
        with 404 when that key is not blocked. */
    method UpdateBanReason(pubkey: string, reason: string) returns (r: Result<PubkeyRow>)
      requires Valid()
      modifies this`pubkeys
      ensures Valid()
      ensures var hex := ToHex(fromNpub, pubkey);
        hex !in old(pubkeys) ==> r == Failure(KeyNotFound) && pubkeys == old(pubkeys)
      ensures var hex := ToHex(fromNpub, pubkey);
        hex in old(pubkeys) ==>
          && pubkeys == old(pubkeys)[hex := old(pubkeys)[hex].(banReason := Some(reason))]
          && r == Success(PubkeyRow(hex, old(pubkeys)[hex].npub, Some(reason)))
    {
      var hex := ToHex(fromNpub, pubkey);
      if hex in pubkeys {
        var row := pubkeys[hex].(banReason := Some(reason));
        pubkeys := pubkeys[hex := row];
        return Success(PubkeyRow(hex, row.npub, row.banReason));
      }
      return Failure(KeyNotFound);
    }

    /** `remove_ban_reason`: clears the reason of the key's hex form, or fails
        with 404 when that key is not blocked. */
    method RemoveBanReason(pubkey: string) returns (r: Result<PubkeyRow>)
      requires Valid()
      modifies this`pubkeys
      ensures Valid()
      ensures var hex := ToHex(fromNpub, pubkey);
        hex !in old(pubkeys) ==> r == Failure(KeyNotFound) && pubkeys == old(pubkeys)
      ensures var hex := ToHex(fromNpub, pubkey);
        hex in old(pubkeys) ==>
          && pubkeys == old(pubkeys)[hex := old(pubkeys)[hex].(banReason := None)]
          && r == Success(PubkeyRow(hex, old(pubkeys)[hex].npub, None))
    {
      var hex := ToHex(fromNpub, pubkey);
      if hex in pubkeys {
        var row := pubkeys[hex].(banReason := None);
        pubkeys := pubkeys[hex := row];
        return Success(PubkeyRow(hex, row.npub, row.banReason));
      }
      return Failure(KeyNotFound);
    }

    /** `temp_ban_pubkey`: records a ban under the raw input (no npub
        conversion) that expires `durationHours` after `now`. An expiry
        outside the range of `datetime` raises before anything is stored,
        and so does a second ban on the same key, which breaks the unique
        column; both are answered 500. After the ban is committed, a truthy
        reason is passed to `UpdateBanReason`, whose 404 is the answer when
        the key is not blocked; the ban stays. */
    method TempBanPubkey(pubkey: string, now: int, durationHours: int := DefaultBanHours,
                         banReason: Option<string> := None)
      returns (r: Result<TempBanRow>)
      requires Valid()
      modifies this`pubkeys, this`tempBans
      ensures Valid()
      ensures BanExpiry(now, durationHours).None? ==>
        r == Failure(Unexpected) && tempBans == old(tempBans) && pubkeys == old(pubkeys)
      ensures pubkey in old(tempBans) ==>
        r == Failure(Unexpected) && tempBans == old(tempBans) && pubkeys == old(pubkeys)
      ensures var expiry := BanExpiry(now, durationHours);
        expiry.Some? && pubkey !in old(tempBans) ==>
          tempBans == old(tempBans)[pubkey := expiry.value]
      ensures var expiry := BanExpiry(now, durationHours); var hex := ToHex(fromNpub, pubkey);
        expiry.Some? && pubkey !in old(tempBans) && Truthy(banReason) && hex in old(pubkeys) ==>
          && pubkeys == old(pubkeys)[hex := old(pubkeys)[hex].(banReason := banReason)]
          && r == Success(TempBanRow(pubkey, expiry.value))
      ensures var expiry := BanExpiry(now, durationHours); var hex := ToHex(fromNpub, pubkey);
        expiry.Some? && pubkey !in old(tempBans) && Truthy(banReason) && hex !in old(pubkeys) ==>
          r == Failure(KeyNotFound) && pubkeys == old(pubkeys)
      ensures var expiry := BanExpiry(now, durationHours);
        expiry.Some? && pubkey !in old(tempBans) && !Truthy(banReason) ==>
          r == Success(TempBanRow(pubkey, expiry.value)) && pubkeys == old(pubkeys)
    {
      var expiry := BanExpiry(now, durationHours);
      if expiry.None? || pubkey in tempBans {
        return Failure(Unexpected);
      }
      tempBans := tempBans[pubkey := expiry.value];
      r := Success(TempBanRow(pubkey, expiry.value));
      if Truthy(banReason) {
        var updated := UpdateBanReason(pubkey, banReason.value);
        if updated.Failure? {
          r := Failure(updated.error);
        }
      }
    }

    /** `remove_temp_ban`: deletes the ban stored under the raw input; silently
        does nothing otherwise. */
    method RemoveTempBan(pubkey: string)
      modifies this`tempBans
      ensures tempBans == old(tempBans) - {pubkey}
    {
      if pubkey in tempBans {
        tempBans := tempBans - {pubkey};
      }
    }

    /** `add_blacklisted_word`: 400 on a duplicate, otherwise the word is added. */
    method AddBlacklistedWord(word: string) returns (r: Result<string>)
      modifies this`words
      ensures word in old(words) ==> r == Failure(WordExists) && words == old(words)
      ensures word !in old(words) ==> r == Success(word) && words == old(words) + {word}
    {
      if word in words {
        return Failure(WordExists);
      }
      words := words + {word};
      return Success(word);
    }

    /** `remove_blacklisted_word`: 404 when absent, otherwise the word is removed. */
    method RemoveBlacklistedWord(word: string) returns (r: Result<string>)
      modifies this`words
      ensures word !in old(words) ==> r == Failure(WordNotFound) && words == old(words)
      ensures word in old(words) ==>
        r == Success("Word removed from blacklist") && words == old(words) - {word}
    {
      if word in words {
        words := words - {word};
        return Success("Word removed from blacklist");
      }
      return Failure(WordNotFound);
    }

    /** `add_blocked_ip`: 400 on a duplicate, otherwise the address is stored
        with its reason. */
    method AddBlockedIp(ip: string, banReason: Option<string>) returns (r: Result<IpRow>)
      modifies this`ips
      ensures ip in old(ips) ==> r == Failure(IpExists) && ips == old(ips)
      ensures ip !in old(ips) ==>
        r == Success(IpRow(ip, banReason)) && ips == old(ips)[ip := banReason]
    {
      if ip in ips {
        return Failure(IpExists);
      }
      ips := ips[ip := banReason];
      return Success(IpRow(ip, banReason));
    }

    /** `remove_blocked_ip`: 404 when absent, otherwise the address is removed. */
    method RemoveBlockedIp(ip: string) returns (r: Result<string>)
      modifies this`ips
      ensures ip !in old(ips) ==> r == Failure(IpNotFound) && ips == old(ips)
      ensures ip in old(ips) ==>
        r == Success("IP address removed from blacklist") && ips == old(ips) - {ip}
    {
      if ip in ips {
        ips := ips - {ip};
        return Success("IP address removed from blacklist");
      }
      return Failure(IpNotFound);
    }
  }

  /** A ban given in npub form is stored under the npub text, while the status
      query reads temp bans under the hex form: when the two differ and no
      ban exists under the hex form, the blocked key is reported with no
      temporary ban after a successful `TempBanPubkey`. */
  method TempBanInNpubFormIsNotReported(store: Store, pubkey: string, durationHours: int,
                                        banReason: Option<string>, now: int)
    returns (r: Result<TempBanRow>)
    requires store.Valid()
    requires IsNpub(pubkey) && store.fromNpub(pubkey) != pubkey
    requires store.fromNpub(pubkey) in store.pubkeys && store.fromNpub(pubkey) !in store.tempBans
    modifies store
    ensures r.Success? ==> pubkey in store.tempBans
    ensures r.Success? ==> store.CheckPubkeyStatus(pubkey) == BlockedKey(None)
  {
    r := store.TempBanPubkey(pubkey, now, durationHours, banReason);
  }
}
