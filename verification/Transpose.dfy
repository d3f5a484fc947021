/** trans.c: cache-blocked matrix transposes. */
module Transpose {

  /** `B` has the shape of the transpose of the N x M matrix `A`. */
  ghost predicate Shaped(A: array2<int>, B: array2<int>, M: nat, N: nat) {
    A != B && A.Length0 == N && A.Length1 == M && B.Length0 == M && B.Length1 == N
  }

  /** A cell of B: column and row of A. */
  type Cell = (int, int)

  ghost predicate NoRepeats(log: seq<Cell>) {
    forall i, j :: 0 <= i < j < |log| ==> log[i] != log[j]
  }

  /** Before row `k` of the tile at (i, j), tiles of width `t` taken row by row:
      whether column `c` of row `r` has been transposed. */
  ghost predicate Seen(t: int, i: int, j: int, k: int, c: int, r: int) {
    r < i || (r < i + t && (c < j || (c < j + t && r < i + k)))
  }

  /** The cells seen hold the transpose, and the log lists exactly them, each once. */
  ghost predicate Progress(A: array2<int>, B: array2<int>, M: nat, N: nat, log: seq<Cell>,
                           t: int, i: int, j: int, k: int)
    requires Shaped(A, B, M, N)
    reads A, B
  {
    && NoRepeats(log)
    && (forall c, r :: 0 <= c < M && 0 <= r < N && Seen(t, i, j, k, c, r) ==> B[c, r] == A[r, c])
    && (forall cell :: cell in log <==> 0 <= cell.0 < M && 0 <= cell.1 < N && Seen(t, i, j, k, cell.0, cell.1))
  }

  /** The whole transpose is there and every cell of B was written exactly once. */
  ghost predicate Transposed(A: array2<int>, B: array2<int>, M: nat, N: nat, log: seq<Cell>)
    requires Shaped(A, B, M, N)
    reads A, B
  {
    && NoRepeats(log)
    && (forall c, r :: 0 <= c < M && 0 <= r < N ==> B[c, r] == A[r, c])
    && (forall cell :: cell in log <==> 0 <= cell.0 < M && 0 <= cell.1 < N)
  }

  /** One assignment to B, logged. */
  method Store(B: array2<int>, c: int, r: int, v: int, ghost log: seq<Cell>) returns (ghost log': seq<Cell>)
    requires 0 <= c < B.Length0 && 0 <= r < B.Length1
    requires NoRepeats(log) && (c, r) !in log
    modifies B
    ensures B[c, r] == v
    ensures forall x, y :: 0 <= x < B.Length0 && 0 <= y < B.Length1 && (x != c || y != r) ==> B[x, y] == old(B[x, y])
    ensures log' == log + [(c, r)] && NoRepeats(log')
  {
    B[c, r] := v;
    log' := log + [(c, r)];
  }

  /** Within row `k` of a tile: the columns below j + l are done too, but not the diagonal cell. */
  ghost predicate SeenInRow(t: int, i: int, j: int, k: int, l: int, c: int, r: int) {
    Seen(t, i, j, k, c, r) || (r == i + k && j <= c < j + l && c != r)
  }

  ghost predicate InRow(A: array2<int>, B: array2<int>, M: nat, N: nat, log: seq<Cell>,
                        t: int, i: int, j: int, k: int, l: int)
    requires Shaped(A, B, M, N)
    reads A, B
  {
    && NoRepeats(log)
    && (forall c, r :: 0 <= c < M && 0 <= r < N && SeenInRow(t, i, j, k, l, c, r) ==> B[c, r] == A[r, c])
    && (forall cell :: cell in log <==>
        (0 <= cell.0 < M && 0 <= cell.1 < N && SeenInRow(t, i, j, k, l, cell.0, cell.1)))
  }

  lemma RowBegins(A: array2<int>, B: array2<int>, M: nat, N: nat, log: seq<Cell>, t: int, i: int, j: int, k: int)
    requires Shaped(A, B, M, N) && Progress(A, B, M, N, log, t, i, j, k)
    ensures InRow(A, B, M, N, log, t, i, j, k, 0)
  {
  }

  /** The diagonal cell is left for later. */
  lemma SkipDiagonal(A: array2<int>, B: array2<int>, M: nat, N: nat, log: seq<Cell>,
                     t: int, i: int, j: int, k: int, l: int)
    requires Shaped(A, B, M, N) && InRow(A, B, M, N, log, t, i, j, k, l) && i + k == j + l
    ensures InRow(A, B, M, N, log, t, i, j, k, l + 1)
  {
    assert forall c, r :: SeenInRow(t, i, j, k, l + 1, c, r) <==> SeenInRow(t, i, j, k, l, c, r);
  }

  /** Stores an element off the diagonal. */
  method StoreNext(ghost A: array2<int>, B: array2<int>, ghost M: nat, ghost N: nat, ghost t: int,
                   i: int, j: int, k: int, l: int, v: int, ghost log: seq<Cell>)
    returns (ghost log': seq<Cell>)
    requires Shaped(A, B, M, N) && 0 <= i && i + k < N && 0 <= j && j + l < M && 0 <= k < t && 0 <= l < t
    requires i + k != j + l && v == A[i + k, j + l]
    requires InRow(A, B, M, N, log, t, i, j, k, l)
    modifies B
    ensures InRow(A, B, M, N, log', t, i, j, k, l + 1)
  {
    var c, r := j + l, i + k;
    forall x, y
      ensures SeenInRow(t, i, j, k, l + 1, x, y) <==> SeenInRow(t, i, j, k, l, x, y) || (x == c && y == r)
    {
      if y == r && x != c {
        assert j <= x < j + l + 1 <==> j <= x < j + l;
      }
    }
    assert !SeenInRow(t, i, j, k, l, c, r);
    hide SeenInRow;
    log' := Store(B, c, r, v, log);
  }

  /** The end of a row that the diagonal does not cross. */
  lemma RowEnds(A: array2<int>, B: array2<int>, M: nat, N: nat, log: seq<Cell>, t: int, i: int, j: int, k: int, l: int)
    requires Shaped(A, B, M, N) && 0 <= k < t && 0 <= l <= t && (l == t || j + l >= M)
    requires InRow(A, B, M, N, log, t, i, j, k, l) && !(j <= i + k < j + l)
    ensures Progress(A, B, M, N, log, t, i, j, k + 1)
  {
    assert forall c, r :: 0 <= c < M ==> (SeenInRow(t, i, j, k, l, c, r) <==> Seen(t, i, j, k + 1, c, r));
  }

  /** Stores the diagonal element, last in its row. */
  method StoreDiagonal(ghost A: array2<int>, B: array2<int>, ghost M: nat, ghost N: nat, ghost t: int,
                       ghost i: int, ghost j: int, ghost k: int, ghost l: int, d: int, v: int, ghost log: seq<Cell>)
    returns (ghost log': seq<Cell>)
    requires Shaped(A, B, M, N) && 0 <= i && i + k < N && 0 <= j && 0 <= k < t && 0 <= l <= t
    requires (l == t || j + l >= M) && j <= i + k < j + l && i + k < M && d == i + k && v == A[d, d]
    requires InRow(A, B, M, N, log, t, i, j, k, l)
    modifies B
    ensures Progress(A, B, M, N, log', t, i, j, k + 1)
  {
    assert forall x, y :: 0 <= x < M ==>
      (Seen(t, i, j, k + 1, x, y) <==> SeenInRow(t, i, j, k, l, x, y) || (x == d && y == d));
    assert !SeenInRow(t, i, j, k, l, d, d);
    hide SeenInRow, Seen;
    log' := Store(B, d, d, v, log);
  }

  /** The first branch: row `k` of an 8 x 8 tile. */
  method Row8(A: array2<int>, B: array2<int>, M: nat, N: nat, i: int, j: int, k: int, ghost log: seq<Cell>)
    returns (ghost log': seq<Cell>)
    requires Shaped(A, B, M, N) && M == N && 0 <= i && i + 8 <= N && 0 <= j && j + 8 <= M && 0 <= k < 8
    requires i % 8 == 0 && j % 8 == 0
    requires Progress(A, B, M, N, log, 8, i, j, k)
    modifies B
    ensures Progress(A, B, M, N, log', 8, i, j, k + 1)
  {
    hide InRow, Progress;
    RowBegins(A, B, M, N, log, 8, i, j, k);
    var diag := 0;
    log' := log;
    var l := 0;
    while l < 8
      invariant 0 <= l <= 8 && InRow(A, B, M, N, log', 8, i, j, k, l)
      invariant j <= i + k < j + l ==> diag == i + k
    {
      if i + k == j + l {
        diag := i + k;
        SkipDiagonal(A, B, M, N, log', 8, i, j, k, l);
      } else {
        log' := StoreNext(A, B, M, N, 8, i, j, k, l, A[i + k, j + l], log');
      }
      l := l + 1;
    }
    TilesMeet(i, j, k);
    if i == j {
      log' := StoreDiagonal(A, B, M, N, 8, i, j, k, l, diag, A[diag, diag], log');
    } else {
      RowEnds(A, B, M, N, log', 8, i, j, k, l);
    }
  }

  /** Aligned tiles are equal or disjoint, so the diagonal crosses a tile only if it sits on it. */
  lemma TilesMeet(i: int, j: int, k: int)
    requires i % 8 == 0 && j % 8 == 0 && 0 <= k < 8
    ensures j <= i + k < j + 8 <==> i == j
  {
  }

  /** The second branch: row `k` of a 16-wide tile, clipped at the last column. */
  method Row16(A: array2<int>, B: array2<int>, M: nat, N: nat, i: int, j: int, k: int, ghost log: seq<Cell>)
    returns (ghost log': seq<Cell>)
    requires Shaped(A, B, M, N) && 0 <= i && i + k < N && 0 <= j && 0 <= k < 16
    requires Progress(A, B, M, N, log, 16, i, j, k)
    modifies B
    ensures Progress(A, B, M, N, log', 16, i, j, k + 1)
  {
    hide InRow, Progress;
    RowBegins(A, B, M, N, log, 16, i, j, k);
    var row, tempPosition, tempValue := i + k, -1, 0;
    log' := log;
    var l := j;
    while l < j + 16 && l < M
      invariant j <= l <= j + 16 && (l <= M || l == j) && InRow(A, B, M, N, log', 16, i, j, k, l - j)
      invariant tempPosition == if j <= row < l then row else -1
      invariant tempPosition != -1 ==> row < M && tempValue == A[row, row]
    {
      if row == l {
        tempPosition := l;
        tempValue := A[tempPosition, tempPosition];
        SkipDiagonal(A, B, M, N, log', 16, i, j, k, l - j);
      } else {
        var tmp := A[row, l];
        log' := StoreNext(A, B, M, N, 16, i, j, k, l - j, tmp, log');
      }
      l := l + 1;
    }
    if tempPosition != -1 {
      log' := StoreDiagonal(A, B, M, N, 16, i, j, k, l - j, tempPosition, tempValue, log');
    } else {
      RowEnds(A, B, M, N, log', 16, i, j, k, l - j);
    }
  }

  /** The last branch: row `k` of a 4 x 4 tile. */
  method Row4(A: array2<int>, B: array2<int>, M: nat, N: nat, i: int, j: int, k: int, ghost log: seq<Cell>)
    returns (ghost log': seq<Cell>)
    requires Shaped(A, B, M, N) && 0 <= i && i + 4 <= N && 0 <= j && j + 4 <= M && 0 <= k < 4
    requires Progress(A, B, M, N, log, 4, i, j, k)
    modifies B
    ensures Progress(A, B, M, N, log', 4, i, j, k + 1)
  {
    hide InRow, Progress;
    RowBegins(A, B, M, N, log, 4, i, j, k);
    var isDiag, diag := false, 0;
    log' := log;
    var l := 0;
    while l < 4
      invariant 0 <= l <= 4 && InRow(A, B, M, N, log', 4, i, j, k, l)
      invariant isDiag <==> j <= i + k < j + l
      invariant isDiag ==> diag == i + k
    {
      if i + k == j + l {
        diag := i + k;
        isDiag := true;
        SkipDiagonal(A, B, M, N, log', 4, i, j, k, l);
      } else {
        log' := StoreNext(A, B, M, N, 4, i, j, k, l, A[i + k, j + l], log');
      }
      l := l + 1;
    }
    if isDiag {
      log' := StoreDiagonal(A, B, M, N, 4, i, j, k, l, diag, A[diag, diag], log');
    } else {
      RowEnds(A, B, M, N, log', 4, i, j, k, l);
    }
  }

  /** Nothing seen at the first tile. */
  lemma Begin(A: array2<int>, B: array2<int>, M: nat, N: nat, t: int)
    requires Shaped(A, B, M, N) && t > 0
    ensures Progress(A, B, M, N, [], t, 0, 0, 0)
  {
  }

  /** After the last row of a tile, or the last row of the matrix, the next tile begins. */
  lemma NextTile(A: array2<int>, B: array2<int>, M: nat, N: nat, log: seq<Cell>, t: int, i: int, j: int, k: int)
    requires Shaped(A, B, M, N) && t > 0 && 0 <= k <= t && (k == t || i + k >= N)
    requires Progress(A, B, M, N, log, t, i, j, k)
    ensures Progress(A, B, M, N, log, t, i, j + t, 0)
  {
  }

  /** After the last tile of a row of tiles the next row of tiles begins. */
  lemma NextBand(A: array2<int>, B: array2<int>, M: nat, N: nat, log: seq<Cell>, t: int, i: int, j: int)
    requires Shaped(A, B, M, N) && t > 0 && j >= M
    requires Progress(A, B, M, N, log, t, i, j, 0)
    ensures Progress(A, B, M, N, log, t, i + t, 0, 0)
  {
  }

  lemma End(A: array2<int>, B: array2<int>, M: nat, N: nat, log: seq<Cell>, t: int, i: int)
    requires Shaped(A, B, M, N) && t > 0 && i >= N
    requires Progress(A, B, M, N, log, t, i, 0, 0)
    ensures Transposed(A, B, M, N, log)
  {
  }

  /** transpose_submit. The last branch reads and writes whole 4 x 4 tiles, so other
      shapes must be multiples of 4. */
  method TransposeSubmit(M: nat, N: nat, A: array2<int>, B: array2<int>) returns (ghost log: seq<Cell>)
    requires Shaped(A, B, M, N)
    requires (M == 61 && N == 67) || (M % 4 == 0 && N % 4 == 0)
    modifies B
    ensures Transposed(A, B, M, N, log)
  {
    log := [];
    if M == 32 && N == 32 {
      log := Tiles8(M, N, A, B);
    } else if M == 61 && N == 67 {
      log := Tiles16(M, N, A, B);
    } else {
      log := Tiles4(M, N, A, B);
    }
  }

  method Tiles8(M: nat, N: nat, A: array2<int>, B: array2<int>) returns (ghost log: seq<Cell>)
    requires Shaped(A, B, M, N) && M == N && N % 8 == 0
    modifies B
    ensures Transposed(A, B, M, N, log)
  {
    log := [];
    Begin(A, B, M, N, 8);
    var i := 0;
    while i < N
      invariant 0 <= i <= N && i % 8 == 0 && Progress(A, B, M, N, log, 8, i, 0, 0)
    {
      var j := 0;
      while j < M
        invariant 0 <= j <= M && j % 8 == 0 && Progress(A, B, M, N, log, 8, i, j, 0)
      {
        Room8(i, N);
        Room8(j, M);
        var k := 0;
        while k < 8
          invariant 0 <= k <= 8 && Progress(A, B, M, N, log, 8, i, j, k)
        {
          log := Row8(A, B, M, N, i, j, k, log);
          k := k + 1;
        }
        NextTile(A, B, M, N, log, 8, i, j, k);
        j := j + 8;
      }
      NextBand(A, B, M, N, log, 8, i, j);
      i := i + 8;
    }
    End(A, B, M, N, log, 8, i);
  }

  lemma Room8(i: int, n: int)
    requires 0 <= i < n && i % 8 == 0 && n % 8 == 0
    ensures i + 8 <= n && (i + 8) % 8 == 0
  {
  }

  lemma Room4(i: int, n: int)
    requires 0 <= i < n && i % 4 == 0 && n % 4 == 0
    ensures i + 4 <= n && (i + 4) % 4 == 0
  {
  }

  method Tiles16(M: nat, N: nat, A: array2<int>, B: array2<int>) returns (ghost log: seq<Cell>)
    requires Shaped(A, B, M, N)
    modifies B
    ensures Transposed(A, B, M, N, log)
  {
    log := [];
    Begin(A, B, M, N, 16);
    var i := 0;
    while i < N
      invariant 0 <= i && Progress(A, B, M, N, log, 16, i, 0, 0)
    {
      var j := 0;
      while j < M
        invariant 0 <= j && Progress(A, B, M, N, log, 16, i, j, 0)
      {
        var k := i;
        while k < i + 16 && k < N
          invariant i <= k <= i + 16 && Progress(A, B, M, N, log, 16, i, j, k - i)
        {
          log := Row16(A, B, M, N, i, j, k - i, log);
          k := k + 1;
        }
        NextTile(A, B, M, N, log, 16, i, j, k - i);
        j := j + 16;
      }
      NextBand(A, B, M, N, log, 16, i, j);
      i := i + 16;
    }
    End(A, B, M, N, log, 16, i);
  }

  method Tiles4(M: nat, N: nat, A: array2<int>, B: array2<int>) returns (ghost log: seq<Cell>)
    requires Shaped(A, B, M, N) && M % 4 == 0 && N % 4 == 0
    modifies B
    ensures Transposed(A, B, M, N, log)
  {
    log := [];
    Begin(A, B, M, N, 4);
    var i := 0;
    while i < N
      invariant 0 <= i <= N && i % 4 == 0 && Progress(A, B, M, N, log, 4, i, 0, 0)
    {
      var j := 0;
      while j < M
        invariant 0 <= j <= M && j % 4 == 0 && Progress(A, B, M, N, log, 4, i, j, 0)
      {
        Room4(i, N);
        Room4(j, M);
        var k := 0;
        while k < 4
          invariant 0 <= k <= 4 && Progress(A, B, M, N, log, 4, i, j, k)
        {
          log := Row4(A, B, M, N, i, j, k, log);
          k := k + 1;
        }
        NextTile(A, B, M, N, log, 4, i, j, k);
        j := j + 4;
      }
      NextBand(A, B, M, N, log, 4, i, j);
      i := i + 4;
    }
    End(A, B, M, N, log, 4, i);
  }

  /** trans, the plain row-wise scan */
  method Trans(M: nat, N: nat, A: array2<int>, B: array2<int>)
    requires Shaped(A, B, M, N)
    modifies B
    ensures forall c, r :: 0 <= c < M && 0 <= r < N ==> B[c, r] == A[r, c]
  {
    for i := 0 to N
      invariant forall c, r :: 0 <= c < M && 0 <= r < i ==> B[c, r] == A[r, c]
    {
      for j := 0 to M
        invariant forall c, r :: 0 <= c < M && 0 <= r < N && (r < i || (r == i && c < j)) ==> B[c, r] == A[r, c]
      {
        var tmp := A[i, j];
        B[j, i] := tmp;
      }
    }
  }

  /** is_transpose */
  method IsTranspose(M: nat, N: nat, A: array2<int>, B: array2<int>) returns (r: int)
    requires Shaped(A, B, M, N)
    ensures r == if forall x, y :: 0 <= x < M && 0 <= y < N ==> B[x, y] == A[y, x] then 1 else 0
  {
    for i := 0 to N
      invariant forall x, y :: 0 <= x < M && 0 <= y < i ==> B[x, y] == A[y, x]
    {
      for j := 0 to M
        invariant forall x :: 0 <= x < j ==> B[x, i] == A[i, x]
      {
        if A[i, j] != B[j, i] {
          return 0;
        }
      }
    }
    return 1;
  }

  /** The blocked transpose and the plain scan fill two matrices alike, and is_transpose accepts both. */
  method BlockedAgreesWithPlain(M: nat, N: nat, A: array2<int>, B: array2<int>, C: array2<int>) returns (b: int, c: int)
    requires Shaped(A, B, M, N) && Shaped(A, C, M, N) && B != C
    requires (M == 61 && N == 67) || (M % 4 == 0 && N % 4 == 0)
    modifies B, C
    ensures b == c == 1
    ensures forall x, y :: 0 <= x < M && 0 <= y < N ==> B[x, y] == C[x, y]
  {
    ghost var log := TransposeSubmit(M, N, A, B);
    Trans(M, N, A, C);
    b := IsTranspose(M, N, A, B);
    c := IsTranspose(M, N, A, C);
  }
}
