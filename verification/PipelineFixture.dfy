/** build_fixture_rows of benchmark_pipeline_slo.py: two generated tables whose join it predicts. */
module PipelineFixture {
  import opened PyText

  datatype ServerRow = ServerRow(email: string, campaign: string, event: string)
  datatype ClientRow = ClientRow(email: string, campaign: string, amount: string)
  datatype Fixture = Fixture(server: seq<ServerRow>, client: seq<ClientRow>, expectedSum: int)

  const DOMAIN := "@example.com"

  function SharedEmail(i: nat): string { "shared-" + (ZeroPad(i, 8) + DOMAIN) }
  function ServerEmail(i: nat): string { "server-only-" + (ZeroPad(i, 8) + DOMAIN) }
  function ClientEmail(i: nat): string { "client-only-" + (ZeroPad(i, 8) + DOMAIN) }

  // ----- what the rows should be -----

  /** Row i of the server table and of the client table, for a given overlap. */
  function ServerRowAt(overlap: nat, campaign: string, i: nat): ServerRow {
    ServerRow(if i < overlap then SharedEmail(i) else ServerEmail(i - overlap), campaign, "exposure")
  }

  function ClientRowAt(overlap: nat, campaign: string, i: nat): ClientRow {
    if i < overlap then ClientRow(SharedEmail(i), campaign, Decimal(100 + i))
    else ClientRow(ClientEmail(i - overlap), campaign, Decimal(1000000 + (i - overlap)))
  }

  /** sum(100 + index for index in range(n)), as fixture_report computes it. */
  function SumOfAmounts(n: nat): int {
    if n == 0 then 0 else SumOfAmounts(n - 1) + (100 + (n - 1))
  }

  predicate ArgumentsOk(serverRows: int, clientRows: int, overlap: int) {
    serverRows > 0 && clientRows > 0 && 0 <= overlap <= serverRows && overlap <= clientRows
  }

  /** Every row is the one described for its place, and the sum is the sum of the shared amounts. */
  predicate FixtureOk(f: Fixture, serverRows: nat, clientRows: nat, overlap: nat, campaign: string) {
    && |f.server| == serverRows && |f.client| == clientRows
    && (forall i :: 0 <= i < serverRows ==> f.server[i] == ServerRowAt(overlap, campaign, i))
    && (forall i :: 0 <= i < clientRows ==> f.client[i] == ClientRowAt(overlap, campaign, i))
    && f.expectedSum == SumOfAmounts(overlap)
  }

  method BuildFixtureRows(serverRows: int, clientRows: int, overlap: int, campaign: string)
    returns (r: Result<Fixture>)
    ensures r.Ok? <==> ArgumentsOk(serverRows, clientRows, overlap)
    ensures r.Ok? ==> FixtureOk(r.value, serverRows, clientRows, overlap, campaign)
  {
    hide SharedEmail, ServerEmail, ClientEmail, Decimal;
    if serverRows <= 0 || clientRows <= 0 {
      return Err("server_rows and client_rows must be positive");
    }
    if overlap < 0 || overlap > (if serverRows < clientRows then serverRows else clientRows) {
      return Err("overlap_count must be between 0 and min(server_rows, client_rows)");
    }
    var server: seq<ServerRow> := [];
    var client: seq<ClientRow> := [];
    var expectedSum := 0;
    for index := 0 to overlap
      invariant |server| == |client| == index && expectedSum == SumOfAmounts(index)
      invariant forall i :: 0 <= i < index ==> server[i] == ServerRowAt(overlap, campaign, i)
      invariant forall i :: 0 <= i < index ==> client[i] == ClientRowAt(overlap, campaign, i)
    {
      var email := SharedEmail(index);
      var amount := 100 + index;
      server := server + [ServerRow(email, campaign, "exposure")];
      client := client + [ClientRow(email, campaign, Decimal(amount))];
      expectedSum := expectedSum + amount;
    }
    for index := 0 to serverRows - overlap
      invariant |server| == overlap + index
      invariant forall i :: 0 <= i < |server| ==> server[i] == ServerRowAt(overlap, campaign, i)
    {
      server := server + [ServerRow(ServerEmail(index), campaign, "exposure")];
    }
    for index := 0 to clientRows - overlap
      invariant |client| == overlap + index
      invariant forall i :: 0 <= i < |client| ==> client[i] == ClientRowAt(overlap, campaign, i)
    {
      client := client + [ClientRow(ClientEmail(index), campaign, Decimal(1000000 + index))];
    }
    r := Ok(Fixture(server, client, expectedSum));
  }

  /** The rows, column by column: shared addresses and ascending amounts from 100 on both sides of the overlap,
      then addresses of one side alone, with amounts from 1000000. */
  lemma RowsSpelled(f: Fixture, serverRows: nat, clientRows: nat, overlap: nat, campaign: string)
    requires FixtureOk(f, serverRows, clientRows, overlap, campaign)
    ensures forall i :: 0 <= i < overlap && i < serverRows ==>
              f.server[i].email == "shared-" + (ZeroPad(i, 8) + "@example.com")
    ensures forall i :: 0 <= i < overlap && i < clientRows ==>
              f.client[i].email == "shared-" + (ZeroPad(i, 8) + "@example.com")
    ensures forall i :: overlap <= i < serverRows ==>
              f.server[i].email == "server-only-" + (ZeroPad(i - overlap, 8) + "@example.com")
    ensures forall i :: overlap <= i < clientRows ==>
              f.client[i].email == "client-only-" + (ZeroPad(i - overlap, 8) + "@example.com")
    ensures forall i :: 0 <= i < serverRows ==> f.server[i].campaign == campaign && f.server[i].event == "exposure"
    ensures forall i :: 0 <= i < clientRows ==>
              && f.client[i].campaign == campaign
              && ParseDecimal(f.client[i].amount) == Some(if i < overlap then 100 + i else 1000000 + i - overlap)
  {
    hide ZeroPad, Decimal, ParseDecimal;
    forall i | 0 <= i < clientRows
      ensures ParseDecimal(f.client[i].amount) == Some(if i < overlap then 100 + i else 1000000 + i - overlap)
    {
      DecimalRoundTrip(if i < overlap then 100 + i else 1000000 + (i - overlap));
    }
  }

  // ----- the emails are distinct -----

  /** An address made from a tag and a padded number gives the number back. */
  lemma TaggedInjective(tag: string, i: nat, j: nat)
    requires tag + (ZeroPad(i, 8) + DOMAIN) == tag + (ZeroPad(j, 8) + DOMAIN)
    ensures i == j
  {
    var a, b := ZeroPad(i, 8), ZeroPad(j, 8);
    var x, y := tag + (a + DOMAIN), tag + (b + DOMAIN);
    assert |a| == |b|;
    assert x[|tag|..|tag| + |a|] == a && y[|tag|..|tag| + |b|] == b;
    ZeroPadValue(i, 8);
    ZeroPadValue(j, 8);
  }

  lemma TagsDiffer(i: nat, j: nat)
    ensures SharedEmail(i) != ServerEmail(j) && SharedEmail(i) != ClientEmail(j) && ServerEmail(i) != ClientEmail(j)
  {
    hide ZeroPad;
    assert SharedEmail(i)[1] == 'h' && ServerEmail(j)[1] == 'e' && ClientEmail(j)[1] == 'l';
    assert ServerEmail(i)[1] == 'e';
  }

  lemma EmailsInjective(i: nat, j: nat)
    ensures SharedEmail(i) == SharedEmail(j) <==> i == j
    ensures ServerEmail(i) == ServerEmail(j) <==> i == j
    ensures ClientEmail(i) == ClientEmail(j) <==> i == j
  {
    hide ZeroPad;
    if SharedEmail(i) == SharedEmail(j) { TaggedInjective("shared-", i, j); }
    if ServerEmail(i) == ServerEmail(j) { TaggedInjective("server-only-", i, j); }
    if ClientEmail(i) == ClientEmail(j) { TaggedInjective("client-only-", i, j); }
  }

  /** The row of one side matches a row of the other exactly when both are the same shared row; within a
      side no email occurs twice. */
  lemma EmailsMatchExactlyOnTheOverlap(f: Fixture, serverRows: nat, clientRows: nat, overlap: nat, campaign: string)
    requires FixtureOk(f, serverRows, clientRows, overlap, campaign)
    ensures forall i, j :: 0 <= i < j < |f.server| ==> f.server[i].email != f.server[j].email
    ensures forall i, j :: 0 <= i < j < |f.client| ==> f.client[i].email != f.client[j].email
    ensures forall i, j :: 0 <= i < |f.server| && 0 <= j < |f.client| ==>
              (f.server[i].email == f.client[j].email <==> i == j < overlap)
  {
    hide SharedEmail, ServerEmail, ClientEmail, Decimal;
    forall i, j | 0 <= i < j < |f.server| ensures f.server[i].email != f.server[j].email {
      EmailsInjective(i, j);
      if overlap <= i { EmailsInjective(i - overlap, j - overlap); }
      if i < overlap <= j { TagsDiffer(i, j - overlap); }
    }
    forall i, j | 0 <= i < j < |f.client| ensures f.client[i].email != f.client[j].email {
      EmailsInjective(i, j);
      if overlap <= i { EmailsInjective(i - overlap, j - overlap); }
      if i < overlap <= j { TagsDiffer(i, j - overlap); }
    }
    forall i, j | 0 <= i < |f.server| && 0 <= j < |f.client|
      ensures f.server[i].email == f.client[j].email <==> i == j < overlap
    {
      EmailsInjective(i, j);
      if i < overlap <= j { TagsDiffer(i, j - overlap); }
      if j < overlap <= i { TagsDiffer(j, i - overlap); }
      if overlap <= i && overlap <= j { TagsDiffer(i - overlap, j - overlap); }
    }
  }

  // ----- the join -----

  /** The client rows whose email the server also has. */
  function Join(server: seq<ServerRow>, client: seq<ClientRow>): seq<ClientRow> {
    if client == [] then []
    else
      var last := client[|client| - 1];
      Join(server, client[..|client| - 1])
      + (if exists i :: 0 <= i < |server| && server[i].email == last.email then [last] else [])
  }

  /** The sum of int(amount) over rows whose amounts are decimal texts. */
  function SumAmounts(rows: seq<ClientRow>): Option<int> {
    if rows == [] then Some(0)
    else
      match (SumAmounts(rows[..|rows| - 1]), ParseDecimal(rows[|rows| - 1].amount))
      case (Some(s), Some(n)) => Some(s + n)
      case _ => None
  }

  lemma {:induction false} JoinIsTheOverlap(f: Fixture, serverRows: nat, clientRows: nat, overlap: nat,
                                            campaign: string, n: nat)
    requires FixtureOk(f, serverRows, clientRows, overlap, campaign)
    requires n <= clientRows && overlap <= serverRows && overlap <= clientRows
    ensures Join(f.server, f.client[..n]) == f.client[..if n < overlap then n else overlap]
  {
    hide ServerRowAt, ClientRowAt;
    if n > 0 {
      JoinIsTheOverlap(f, serverRows, clientRows, overlap, campaign, n - 1);
      EmailsMatchExactlyOnTheOverlap(f, serverRows, clientRows, overlap, campaign);
      assert f.client[..n][..n - 1] == f.client[..n - 1];
      if n <= overlap { assert f.server[n - 1].email == f.client[n - 1].email; }
    }
  }

  lemma {:induction false} SharedAmountsSum(f: Fixture, serverRows: nat, clientRows: nat, overlap: nat,
                                            campaign: string, n: nat)
    requires FixtureOk(f, serverRows, clientRows, overlap, campaign) && n <= overlap <= clientRows
    ensures SumAmounts(f.client[..n]) == Some(SumOfAmounts(n))
  {
    hide SharedEmail, ServerRowAt, Decimal, ParseDecimal;
    if n > 0 {
      SharedAmountsSum(f, serverRows, clientRows, overlap, campaign, n - 1);
      DecimalRoundTrip(100 + (n - 1));
      assert f.client[..n][..n - 1] == f.client[..n - 1];
    }
  }

  lemma {:induction false} SumClosedForm(n: nat)
    ensures SumOfAmounts(n) == 100 * n + n * (n - 1) / 2
  {
    if n > 0 {
      SumClosedForm(n - 1);
      assert n * (n - 1) == (n - 1) * (n - 2) + 2 * (n - 1);
    }
  }

  /** The generated tables join in exactly overlap_count rows, whose client amounts add up to the promised
      sum, to the separately computed one, and to 100n + n(n-1)/2. */
  lemma JoinHasThePromisedSizeAndSum(f: Fixture, serverRows: nat, clientRows: nat, overlap: nat, campaign: string)
    requires ArgumentsOk(serverRows, clientRows, overlap) && FixtureOk(f, serverRows, clientRows, overlap, campaign)
    ensures |Join(f.server, f.client)| == overlap
    ensures SumAmounts(Join(f.server, f.client)) == Some(f.expectedSum)
    ensures f.expectedSum == SumOfAmounts(overlap) == 100 * overlap + overlap * (overlap - 1) / 2
  {
    hide ServerRowAt, ClientRowAt, Join, SumAmounts;
    assert f.client[..clientRows] == f.client;
    JoinIsTheOverlap(f, serverRows, clientRows, overlap, campaign, clientRows);
    SharedAmountsSum(f, serverRows, clientRows, overlap, campaign, overlap);
    SumClosedForm(overlap);
  }
}
