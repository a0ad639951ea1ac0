/** The code lengths of RFC 7541, Appendix B (its column "len in bits"), symbol by symbol. With them the code is
    determined: see HuffmanUnique. */
module HuffmanLengths {

  function Lengths0(s: nat): nat {
    match s
    case 0 => 13
    case 1 => 23
    case 2 => 28
    case 3 => 28
    case 4 => 28
    case 5 => 28
    case 6 => 28
    case 7 => 28
    case 8 => 28
    case 9 => 24
    case 10 => 30
    case 11 => 28
    case 12 => 28
    case 13 => 30
    case 14 => 28
    case 15 => 28
    case _ => 0
  }

  function Lengths1(s: nat): nat {
    match s
    case 16 => 28
    case 17 => 28
    case 18 => 28
    case 19 => 28
    case 20 => 28
    case 21 => 28
    case 22 => 30
    case 23 => 28
    case 24 => 28
    case 25 => 28
    case 26 => 28
    case 27 => 28
    case 28 => 28
    case 29 => 28
    case 30 => 28
    case 31 => 28
    case _ => 0
  }

  function Lengths2(s: nat): nat {
    match s
    case 32 => 6
    case 33 => 10
    case 34 => 10
    case 35 => 12
    case 36 => 13
    case 37 => 6
    case 38 => 8
    case 39 => 11
    case 40 => 10
    case 41 => 10
    case 42 => 8
    case 43 => 11
    case 44 => 8
    case 45 => 6
    case 46 => 6
    case 47 => 6
    case _ => 0
  }

  function Lengths3(s: nat): nat {
    match s
    case 48 => 5
    case 49 => 5
    case 50 => 5
    case 51 => 6
    case 52 => 6
    case 53 => 6
    case 54 => 6
    case 55 => 6
    case 56 => 6
    case 57 => 6
    case 58 => 7
    case 59 => 8
    case 60 => 15
    case 61 => 6
    case 62 => 12
    case 63 => 10
    case _ => 0
  }

  function Lengths4(s: nat): nat {
    match s
    case 64 => 13
    case 65 => 6
    case 66 => 7
    case 67 => 7
    case 68 => 7
    case 69 => 7
    case 70 => 7
    case 71 => 7
    case 72 => 7
    case 73 => 7
    case 74 => 7
    case 75 => 7
    case 76 => 7
    case 77 => 7
    case 78 => 7
    case 79 => 7
    case _ => 0
  }

  function Lengths5(s: nat): nat {
    match s
    case 80 => 7
    case 81 => 7
    case 82 => 7
    case 83 => 7
    case 84 => 7
    case 85 => 7
    case 86 => 7
    case 87 => 7
    case 88 => 8
    case 89 => 7
    case 90 => 8
    case 91 => 13
    case 92 => 19
    case 93 => 13
    case 94 => 14
    case 95 => 6
    case _ => 0
  }

  function Lengths6(s: nat): nat {
    match s
    case 96 => 15
    case 97 => 5
    case 98 => 6
    case 99 => 5
    case 100 => 6
    case 101 => 5
    case 102 => 6
    case 103 => 6
    case 104 => 6
    case 105 => 5
    case 106 => 7
    case 107 => 7
    case 108 => 6
    case 109 => 6
    case 110 => 6
    case 111 => 5
    case _ => 0
  }

  function Lengths7(s: nat): nat {
    match s
    case 112 => 6
    case 113 => 7
    case 114 => 6
    case 115 => 5
    case 116 => 5
    case 117 => 6
    case 118 => 7
    case 119 => 7
    case 120 => 7
    case 121 => 7
    case 122 => 7
    case 123 => 15
    case 124 => 11
    case 125 => 14
    case 126 => 13
    case 127 => 28
    case _ => 0
  }

  function Lengths8(s: nat): nat {
    match s
    case 128 => 20
    case 129 => 22
    case 130 => 20
    case 131 => 20
    case 132 => 22
    case 133 => 22
    case 134 => 22
    case 135 => 23
    case 136 => 22
    case 137 => 23
    case 138 => 23
    case 139 => 23
    case 140 => 23
    case 141 => 23
    case 142 => 24
    case 143 => 23
    case _ => 0
  }

  function Lengths9(s: nat): nat {
    match s
    case 144 => 24
    case 145 => 24
    case 146 => 22
    case 147 => 23
    case 148 => 24
    case 149 => 23
    case 150 => 23
    case 151 => 23
    case 152 => 23
    case 153 => 21
    case 154 => 22
    case 155 => 23
    case 156 => 22
    case 157 => 23
    case 158 => 23
    case 159 => 24
    case _ => 0
  }

  function Lengths10(s: nat): nat {
    match s
    case 160 => 22
    case 161 => 21
    case 162 => 20
    case 163 => 22
    case 164 => 22
    case 165 => 23
    case 166 => 23
    case 167 => 21
    case 168 => 23
    case 169 => 22
    case 170 => 22
    case 171 => 24
    case 172 => 21
    case 173 => 22
    case 174 => 23
    case 175 => 23
    case _ => 0
  }

  function Lengths11(s: nat): nat {
    match s
    case 176 => 21
    case 177 => 21
    case 178 => 22
    case 179 => 21
    case 180 => 23
    case 181 => 22
    case 182 => 23
    case 183 => 23
    case 184 => 20
    case 185 => 22
    case 186 => 22
    case 187 => 22
    case 188 => 23
    case 189 => 22
    case 190 => 22
    case 191 => 23
    case _ => 0
  }

  function Lengths12(s: nat): nat {
    match s
    case 192 => 26
    case 193 => 26
    case 194 => 20
    case 195 => 19
    case 196 => 22
    case 197 => 23
    case 198 => 22
    case 199 => 25
    case 200 => 26
    case 201 => 26
    case 202 => 26
    case 203 => 27
    case 204 => 27
    case 205 => 26
    case 206 => 24
    case 207 => 25
    case _ => 0
  }

  function Lengths13(s: nat): nat {
    match s
    case 208 => 19
    case 209 => 21
    case 210 => 26
    case 211 => 27
    case 212 => 27
    case 213 => 26
    case 214 => 27
    case 215 => 24
    case 216 => 21
    case 217 => 21
    case 218 => 26
    case 219 => 26
    case 220 => 28
    case 221 => 27
    case 222 => 27
    case 223 => 27
    case _ => 0
  }

  function Lengths14(s: nat): nat {
    match s
    case 224 => 20
    case 225 => 24
    case 226 => 20
    case 227 => 21
    case 228 => 22
    case 229 => 21
    case 230 => 21
    case 231 => 23
    case 232 => 22
    case 233 => 22
    case 234 => 25
    case 235 => 25
    case 236 => 24
    case 237 => 24
    case 238 => 26
    case 239 => 23
    case _ => 0
  }

  function Lengths15(s: nat): nat {
    match s
    case 240 => 26
    case 241 => 27
    case 242 => 26
    case 243 => 26
    case 244 => 27
    case 245 => 27
    case 246 => 27
    case 247 => 27
    case 248 => 27
    case 249 => 28
    case 250 => 27
    case 251 => 27
    case 252 => 27
    case 253 => 27
    case 254 => 27
    case 255 => 26
    case _ => 0
  }

  function Lengths16(s: nat): nat {
    match s
    case 256 => 30
    case _ => 0
  }

  function LengthOf(s: nat): nat {
    match s / 16
    case 0 => Lengths0(s)
    case 1 => Lengths1(s)
    case 2 => Lengths2(s)
    case 3 => Lengths3(s)
    case 4 => Lengths4(s)
    case 5 => Lengths5(s)
    case 6 => Lengths6(s)
    case 7 => Lengths7(s)
    case 8 => Lengths8(s)
    case 9 => Lengths9(s)
    case 10 => Lengths10(s)
    case 11 => Lengths11(s)
    case 12 => Lengths12(s)
    case 13 => Lengths13(s)
    case 14 => Lengths14(s)
    case 15 => Lengths15(s)
    case 16 => Lengths16(s)
    case _ => 0
  }
}
