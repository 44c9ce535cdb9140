/**
 * The block-id argument of the `katana rpc starknet` commands: a tag, a block hash
 * written in hex, or a block number written in decimal.
 */
module BlockIds {
  import opened Wrappers
  import opened Decimal

  datatype BlockTag = Latest | Pending

  datatype BlockId = Tag(tag: BlockTag) | Hash(hash: nat) | Number(number: nat)

  datatype BlockIdError =
    | InvalidBlockHash(hashText: string)
    | InvalidBlockNumber(numberText: string, kind: IntErrorKind)

  predicate StartsWith(s: string, prefix: string) {
    |prefix| <= |s| && s[..|prefix|] == prefix
  }

  /**
   * `BlockIdArg::from_str`. The two tag names come first; any other text that starts with
   * `0x` is a block hash, read by `fromHex` (the field element parser), and is never taken
   * as a number; everything else must be a `u64` block number.
   */
  function FromStr(s: string, fromHex: string -> Option<nat>): (r: Result<BlockId, BlockIdError>)
    ensures s == "latest" ==> r == Ok(Tag(Latest))
    ensures s == "pending" ==> r == Ok(Tag(Pending))
    ensures r.Ok? && r.value.Tag? ==> s == "latest" || s == "pending"
    ensures s != "latest" && s != "pending" && StartsWith(s, "0x") ==>
              && (r.Ok? <==> fromHex(s).Some?)
              && (r.Ok? ==> r.value == Hash(fromHex(s).value))
              && (r.Err? ==> r.error == InvalidBlockHash(s))
    ensures !StartsWith(s, "0x") && s != "latest" && s != "pending" ==>
              && (r.Ok? <==> ParseUnsigned(s, U64_MAX).Ok?)
              && (r.Ok? ==> r.value == Number(ParseUnsigned(s, U64_MAX).value))
              && (r.Err? ==> r.error == InvalidBlockNumber(s, ParseUnsigned(s, U64_MAX).error))
    ensures r.Ok? && r.value.Number? ==> r.value.number <= U64_MAX
  {
    if s == "latest" then Ok(Tag(Latest))
    else if s == "pending" then Ok(Tag(Pending))
    else if StartsWith(s, "0x") then
      match fromHex(s)
      case Some(h) => Ok(Hash(h))
      case None => Err(InvalidBlockHash(s))
    else
      match ParseUnsigned(s, U64_MAX)
      case Ok(n) => Ok(Number(n))
      case Err(e) => Err(InvalidBlockNumber(s, e))
  }

  /** `Default for BlockIdArg`: the latest block. */
  const DEFAULT_BLOCK_ID := Tag(Latest)

  /** A block number written in decimal is read back as that number, whatever the hex parser. */
  lemma NumberRoundTrip(n: nat, fromHex: string -> Option<nat>)
    requires n <= U64_MAX
    ensures FromStr(ToDecimal(n), fromHex) == Ok(Number(n))
  {
    var s := ToDecimal(n);
    ParseToDecimal(n, U64_MAX);
    assert !StartsWith(s, "0x") by {
      if |s| >= 2 {
        assert IsDigit(s[1]);
      }
    }
    assert s != "latest" && s != "pending" by {
      assert IsDigit(s[0]);
    }
  }

  /** Text that starts with `0x` is a hash or an error, never a number. */
  lemma HexIsNeverANumber(s: string, fromHex: string -> Option<nat>)
    requires StartsWith(s, "0x")
    ensures FromStr(s, fromHex).Ok? ==> FromStr(s, fromHex).value.Hash?
  {
    assert s != "latest" && s != "pending" by {
      assert s[0] == '0';
    }
  }

  /** Examples: a leading `+` is accepted, as by `u64::from_str`; the empty string, a `-` or a capitalised tag is an error. */
  lemma FromStrExamples(fromHex: string -> Option<nat>)
    ensures FromStr("+5", fromHex) == Ok(Number(5))
    ensures FromStr("", fromHex) == Err(InvalidBlockNumber("", Empty))
    ensures FromStr("Latest", fromHex).Err?
    ensures FromStr("-1", fromHex) == Err(InvalidBlockNumber("-1", InvalidDigit))
  {
    assert ParseUnsigned("+5", U64_MAX) == Ok(5) by {
      assert "+5"[1..] == "5";
      assert "5"[..0] == "";
    }
    assert !StartsWith("Latest", "0x") by {
      assert "Latest"[..2][0] == 'L';
    }
    assert !IsDigit('L');
    assert Scan("-1", U64_MAX) == Err(InvalidDigit) by {
      assert "-1"[..1] == "-";
      assert "-"[..0] == "";
    }
  }
}
