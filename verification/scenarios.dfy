/** Uses of the generator that follow from its contracts alone. */
module Scenarios {
  import opened Outcomes
  import opened IntParse
  import opened Response
  import opened RandomInt

  /** An empty address list fails initialization, and the client keeps
      refusing to produce numbers without asking anyone. */
  method NoAddress() {
    var g := new Generator(1000);
    var r, sent := g.InitializeClient([], 2000, 2000, Received("1000"));
    assert r == Err(AddressNotFound) && sent == None && !g.Initialized;
    var x, sent2 := g.Next(1, 6, 3000, 3000, Received("4\n"));
    assert x == Err(NotInitialized) && sent2 == None;
  }

  /** With a quota of 5, a batch of 10 is drawn locally and in range. */
  method LowQuota() {
    var ip := Address(InterNetwork, "198.51.100.7");
    var g := new Generator(0);
    var addresses := [Address(InterNetworkV6, "::1"), ip];
    assert FirstIPv4Index(addresses[1..]) == 0;
    assert FirstIPv4Index(addresses) == 1;
    assert ParseInt32("5\n") == Some(5) by {
      ParseFormat(5);
      WhitePaddingIgnored([], FormatInt(5), "\n");
      assert FormatInt(5) == "5";
      assert [] + "5" + "\n" == "5\n";
    }
    var r, sent := g.InitializeClient(addresses, 100000, 100000, Received("5\n"));
    assert r == Ok(()) && g.Initialized && g.Quota == 5;
    var xs, sent2 := g.NextSet(1, 6, 10, 10, 200000, 200000, Failed("must not be called"));
    assert sent2 == None && xs.Ok? && |xs.value| == 10;
    assert forall i :: 0 <= i < 10 ==> 1 <= xs.value[i] <= 6;
  }

  /** With quota to spare and the cooldown elapsed, the service's numbers
      come back as sent and the time the reply arrived is recorded; a second
      call within 10 ms of that reply goes to the local generator, even
      though more than 10 ms passed since the first call began. */
  method PlentyOfQuota(g: Generator, values: seq<int>)
    requires g.Valid() && g.Initialized && g.Quota == 1000 && g.LastUsedApi == 0
    requires |values| == 10 && forall i :: 0 <= i < 10 ==> MinInt32 <= values[i] <= MaxInt32
    modifies g
  {
    ParseRender(values);
    var xs, sent := g.NextSet(-5, 5, 10, 10, 200000, 200100, Received(Render(values)));
    assert sent == Some(IntegersRequest(10, -5, 5, 10));
    assert xs == Ok(values) && g.LastUsedApi == 200100;
    var ys, sent2 := g.NextSet(-5, 5, 10, 10, 200105, 200105, Received(Render(values)));
    assert sent2 == None && ys.Ok? && |ys.value| == 10;
  }

  /** A quota body that is not a number leaves the quota alone but still
      counts as a check. */
  method MalformedQuota() {
    var ip := Address(InterNetwork, "198.51.100.7");
    var g := new Generator(0);
    RejectsWords();
    var r, sent := g.InitializeClient([ip], 70000, 70050, Received("not-a-number"));
    assert r == Err(Unparsable("not-a-number")) && !g.Initialized;
    assert g.Quota == 0 && g.LastCheckedQuota == 70050;
  }
}
