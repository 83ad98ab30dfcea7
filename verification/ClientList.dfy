// The intrusive list of clients: pFirstClient and pLastClient of CFtpServer, and the
// pPrevClient and pNextClient fields of each CClientEntry.

module ClientList {

  class ClientEntry {
    var pPrevClient: ClientEntry?
    var pNextClient: ClientEntry?

    constructor ()
      ensures pPrevClient == null && pNextClient == null
    {
      pPrevClient, pNextClient := null, null;
    }
  }

  class FtpServer {
    var pFirstClient: ClientEntry?
    var pLastClient: ClientEntry?
    var uiNumberOfClient: int
    // The sequence the pointers stand for.
    ghost var clients: seq<ClientEntry>

    /** Entry i of a list has the neighbours its place says, and null at the ends. */
    static ghost predicate LinkedAt(s: seq<ClientEntry>, i: nat)
      requires i < |s|
      reads s[i]
    {
      s[i].pPrevClient == (if i == 0 then null else s[i - 1])
      && s[i].pNextClient == (if i == |s| - 1 then null else s[i + 1])
    }

    ghost predicate Valid()
      reads this, clients
    {
      && (forall i, j :: 0 <= i < j < |clients| ==> clients[i] != clients[j])
      && pFirstClient == (if clients == [] then null else clients[0])
      && pLastClient == (if clients == [] then null else clients[|clients| - 1])
      && (forall i :: 0 <= i < |clients| ==> LinkedAt(clients, i))
      && uiNumberOfClient == |clients|
    }

    constructor ()
      ensures Valid() && clients == []
    {
      pFirstClient, pLastClient, uiNumberOfClient, clients := null, null, 0, [];
    }

    /** The list part of AddClient: the entry goes to the end. */
    method AddClient() returns (pClient: ClientEntry)
      requires Valid()
      modifies this, clients
      ensures Valid() && fresh(pClient) && clients == old(clients) + [pClient]
    {
      ghost var n := |clients|;
      assert n > 0 ==> LinkedAt(clients, n - 1);
      pClient := new ClientEntry();
      if pLastClient != null {
        pClient.pPrevClient := pLastClient;
        pLastClient.pNextClient := pClient;
        pLastClient := pClient;
      } else {
        pFirstClient := pClient;
        pLastClient := pClient;
      }
      uiNumberOfClient := uiNumberOfClient + 1;
      clients := clients + [pClient];
      forall i | 0 <= i < |clients|
        ensures LinkedAt(clients, i)
      {
        assert i < n ==> old(LinkedAt(clients, i));
      }
    }

    /** ~CClientEntry: exactly this entry goes, and the others keep their order. */
    method DeleteClient(pClient: ClientEntry, ghost k: nat)
      requires Valid() && k < |clients| && clients[k] == pClient
      modifies this, clients
      ensures Valid() && clients == old(clients[..k]) + old(clients[k + 1..])
      ensures pClient !in clients
    {
      ghost var s := clients;
      assert LinkedAt(s, k);
      assert k > 0 ==> LinkedAt(s, k - 1);
      assert k + 1 < |s| ==> LinkedAt(s, k + 1);
      if pClient.pPrevClient != null {
        pClient.pPrevClient.pNextClient := pClient.pNextClient;
      }
      if pClient.pNextClient != null {
        pClient.pNextClient.pPrevClient := pClient.pPrevClient;
      }
      uiNumberOfClient := uiNumberOfClient - 1;
      if pFirstClient == pClient {
        pFirstClient := pClient.pNextClient;
      }
      if pLastClient == pClient {
        pLastClient := pClient.pPrevClient;
      }
      clients := s[..k] + s[k + 1..];
      forall i | 0 <= i < |clients|
        ensures LinkedAt(clients, i)
      {
        assert old(LinkedAt(s, if i < k then i else i + 1));
      }
    }

    /** A walk along pNextClient from pFirstClient meets the clients in order and ends. */
    method Walk() returns (met: seq<ClientEntry>)
      requires Valid()
      ensures met == clients
    {
      met := [];
      var p := pFirstClient;
      while p != null
        invariant |met| <= |clients| && met == clients[..|met|]
        invariant p == if |met| == |clients| then null else clients[|met|]
        decreases |clients| - |met|
      {
        assert LinkedAt(clients, |met|);
        met := met + [p];
        p := p.pNextClient;
      }
    }
  }
}
